# Verification of the simple VPN

A client wraps a TCP/IP packet in a GRE header, encrypts it with a four-byte XOR
key and sends it to a VPN server. The server decrypts it, puts its own address in
`ip_src`, drops the GRE header and sends the rest to the destination. The
destination answers; the server wraps the answer again, puts the client's address
in `ip_dst`, encrypts it and sends it back. This project models that code and
proves what it does to every packet and in every run.

The code that writes memory is imperative here too: the checksum loops, the
address parser, the header writers, the two rewrites, encryption and the program
legs are methods on arrays, with the source's stores in the source's order. Each is
proved equal to a function on byte sequences, and the theorems are about those
functions. The three programs together are a transition system whose steps are
those functions.

| file | content |
|---|---|
| `Bytes.dfy` | C integers, little-endian loads and stores, `strlen`, bitwise `\|` and `^` |
| `OnesComplement.dfy` | one's-complement sums modulo 65535 |
| `Utils.dfy` | `cksum`, `verify_checksum` and the example's `calculate_checksum` |
| `HostInfo.dfy` | dotted quads and the host table |
| `Cipher.dfy` | the XOR loop |
| `Headers.dfy` | packet layout, header contents, the proxy's rewrite as a function |
| `Rewrite.dfy` | frame, algebra and checksum value of the rewrite |
| `Wire.dfy` | messages on the sockets and the law of the encrypted hop |
| `Packet.dfy` | the functions of `packet.c`, `encap.c` and `decap.c` on arrays |
| `Programs.dfy` | what each program does between two socket calls |
| `Delivery.dfy` | one request and its answer, hop by hop |
| `Session.dfy` | the three programs as a transition system, and its invariant |
| `Theorems.dfy` | what holds of every run |
| `Interleavings.dfy` | which sequences of events are runs, and the state after each |

## Conventions

- The host is little-endian x86 Linux: struct fields are stored low byte first,
  `htons` and `htonl` swap, `char` is signed, `int` has 32 bits and `long` 64.
- Integers are mathematical. The `uint32_t` accumulator of `cksum`, the `uint8_t`
  packet size, `val << 8` and the conversion of a negative octet wrap explicitly;
  `int` overflow in the parser is excluded by a precondition that excludes nothing
  else (`HostInfo.FieldsFitExact`).
- `recv` delivers one whole `send` into a zeroed buffer, or 0 bytes when the peer
  has gone. TCP promises less, and the code has no framing; `Wire.PartialReceive`
  says what a short read of the request does.
- Server and destination program each run on the host whose name they are given and
  are listening before the other two connect. Both bind one port on every address of
  their host (`src/server.c:85-86`, `src/destination.c:38-39`), so a `connect`
  succeeds exactly when a program that still listens was started with a name of the
  address, and the client (`src/client.c:105-106`) gets whichever program that is,
  or either one when both were.
- Closing a socket loses nothing that was sent on it before.
- Preconditions are what keeps the C code inside its buffers: request text of at
  most 128 bytes, response text of at most 122 (the destination sends 46 bytes plus
  the text from 6 bytes into a 174-byte buffer), and a NUL inside every payload area
  `strlen` is run on. `Theorems.BuffersSuffice` proves that runs meet them.

## Findings

- `doc/CSCD58_Documentation.txt` (lines 12-16) says that `cksum` converts its result
  to network byte order, and it does; every caller converts it once more. So a
  header sums to all ones exactly when 257 divides its word sum
  (`OnesComplement.SumToAllOnesSwapped`), and the GRE header never does
  (`Headers.GreHeaderChecksum`). Verifying with `ntohs` of the field undoes the
  second swap, and that is the check used below.
- `src/packet.h` (lines 49-53) says `serv_handle_pkt_dest` writes the server's
  address; the server passes the client's, and the model does the same.
- The proxy sums the header while `ip_len` and both addresses are byte-swapped in
  memory. The header it sends verifies exactly when the host-order length is the sum
  of the addresses modulo 257 (`Rewrite.HandlePktVerifies`), and between hosts of the
  shipped table no delivered header ever does (`Theorems.DeliveredHeadersNeverVerify`).
- `set_tcp` sums a header whose `tcp_sum` it has not zeroed; the result verifies
  exactly when the old field was one of the two zeros (`Headers.SetTcpAccepted`). Its
  callers pass zeroed buffers.
- `cksum` is right for any length as long as the words sum to less than 2^32, and
  wrong otherwise (`OnesComplement.WrapIsExact`).
- A server that cannot connect to the destination closes its connection, and the
  client takes that end-of-file for an answer without text
  (`Theorems.DeliveredExactlyWhenConsistent`).
- Nothing tells the client which program it reached. When the destination program was
  started with the name the client gives for the server, it takes the encrypted
  packet as it is, reads 126.86.52.18 as its source and answers, and the client
  decrypts an answer that was never encrypted. Requests arrive as they should in
  every run if and only if the command lines rule this out
  (`Theorems.RequestsSoundIff`), and `Theorems.MisroutedCommandLines` has command
  lines that do not.
- A payload byte equal to its key byte encrypts to NUL and ends the text
  (`Wire.RecoveredIsWhole`); a payload that starts with `V` arrives empty. The two
  compiled-in messages have no such byte (`Theorems.ShippedMessagesSurvive`).

## Model

| member | source | states |
|---|---|---|
| Bytes.BitwiseMeaning | src/host_info.c:46 | a bit of the bitwise or of a and b is set if and only if it is set in a or in b; of the exclusive or, if and only if in exactly one |
| Utils.Cksum | src/utils.c:23-36 | for every buffer and every length, negative ones included, the loops return the swapped complement of the one's-complement value of the word sum modulo 2^32; up to 131074 bytes that is the true checksum |
| Utils.VerifyChecksum | src/utils.c:42-45 | 0 exactly when the given value is the buffer's checksum, -1 otherwise |
| OnesComplement.FoldKeepsOnesSum | src/utils.c:32-33 | folding keeps the one's-complement value (residue modulo 65535 and non-zeroness), shrinks every sum above 0xffff, and two folds suffice for a uint32 |
| OnesComplement.AccumulatorBound | src/utils.c:26-31 | up to 65537 words the uint32 sum cannot wrap |
| OnesComplement.AccumulatorBoundTight | src/utils.c:26-31 | one byte more than that bound, all ones, gives a wrong checksum |
| OnesComplement.WrapIsExact | src/utils.c:23-36 | for every int length the checksum is right if and only if the words sum to less than 2^32 |
| OnesComplement.ChecksumDiscriminates | src/utils.c:28-35 | two buffers have the same checksum if and only if their word sums agree modulo 65535; the checksum is never 0 |
| OnesComplement.OneWordChange | src/utils.c:42-45 | changing one aligned word keeps the checksum only when nothing changed or 0x0000 and 0xffff were exchanged |
| OnesComplement.OneByteChange | src/utils.c:42-45 | a single changed byte always changes the checksum, at any offset and length, the padded last byte of an odd-length buffer included |
| OnesComplement.SumToAllOnes | src/utils.c:23-36 | a buffer with its checksum stored natively in its zeroed field sums to 0xffff, the all-zero buffer included |
| OnesComplement.SumToAllOnesSwapped | src/packet.c:80-81 | with htons of the checksum stored, as the code does, it does so if and only if 257 divides the word sum |
| OnesComplement.NativeOnesSumIsSwapped | doc/guide_mininet/examples/client_packet.c:26-34 | the one's-complement sum of native words is the byte swap of the sum of big-endian words, odd lengths included |
| OnesComplement.TwoFoldsExact | doc/guide_mininet/examples/client_packet.c:36-38 | two fixed folds of a long sum give the one's-complement value if and only if the second leaves no carry, which is always so below 2^32 |
| Utils.CalculateChecksum | doc/guide_mininet/examples/client_packet.c:20-41 | the loop returns the complement of the twice-folded native sum, and says exactly when that is the one's complement |
| Utils.ChecksumsAgree | doc/guide_mininet/examples/client_packet.c:20-41 | both checksum algorithms return the same number on every buffer up to 131074 bytes, except that 0 in one is 0xffff in the other |
| HostInfo.ParseIpAddr | src/host_info.c:30-51 | the nested loops compute the address of the text before the NUL, whatever follows it, without int overflow or reading past the NUL |
| HostInfo.DigitValueRange | src/host_info.c:40 | a character counts as its distance from the character 0 modulo 256, between -176 and 79 |
| HostInfo.FieldsFitExact | src/host_info.c:36-48 | the parser's precondition holds if and only if no product and no sum in any turn of its digit loop leaves the range of int |
| HostInfo.MissingIsZero | src/host_info.c:36-48 | a missing component reads as a zero on the right |
| HostInfo.ExtraIsIgnored | src/host_info.c:36-48 | text after the fourth component is ignored |
| HostInfo.ParseIpAddrToStr | src/host_info.c:60-64 | the buffer starts with the printed address and a NUL, the rest untouched |
| HostInfo.PrintThenParse | src/host_info.c:30-64 | every 32-bit address parses back from its text, which is canonical and 7 to 15 characters long |
| HostInfo.ParseThenPrint | src/host_info.c:30-64 | every canonical dotted quad is printed back unchanged |
| HostInfo.CanonicalIffPrinted | src/host_info.c:60-64 | the canonical quads are exactly the texts that survive parsing and printing |
| HostInfo.ParseIsInjective | src/host_info.c:30-51 | two canonical quads have the same address only if they are the same text |
| HostInfo.CanonicalFits | src/host_info.c:38-41 | canonical quads never overflow the parser's int |
| HostInfo.GetHostIp | src/host_info.c:71-83 | the scan returns an address if and only if name and address are an entry of the table |
| HostInfo.KnownHosts | src/host_info.c:17-20 | hk has the text of 10.0.0.k for every k from 1 to 7, and no other name is known |
| HostInfo.HostIpIsCanonical | src/host_info.c:17-20 | the table's addresses are canonical and parse to 10.0.0.k |
| Cipher.XorEncryptDecrypt | src/encrypt.c:22-28 | the first length bytes of the output are the encrypted input, the rest untouched, also when both are one array |
| Cipher.EncryptedTwice | src/encrypt.c:22-28 | encrypting twice gives the data back |
| Headers.SealAccepted | src/packet.c:80-81 | a sealed header verifies if and only if its field held 0x0000 or 0xffff when it was summed |
| Headers.AcceptsIff | src/utils.c:42-45 | a field verifies if and only if it is not zero and, read natively, cancels the word sum of the rest modulo 65535 |
| Headers.SetIpAccepted | src/packet.c:69-82 | whatever the buffer held, the header set_ip leaves has version 4, the given addresses, length and protocol, keeps every other byte, and verifies |
| Headers.SetTcpAccepted | src/packet.c:84-91 | the header set_tcp leaves has both ports 17350 and the flags, keeps every other byte but tcp_sum, and verifies if and only if the old tcp_sum was 0x0000 or 0xffff |
| Headers.StaleTcpSum | src/packet.c:84-91 | a buffer that is zero but for one bit of tcp_sum gets a header that does not verify |
| Headers.GreHeaderChecksum | src/encap.c:20-31 | the GRE header sent with every packet is 00 01 08 00 fe f7; it verifies but does not sum to all ones |
| Headers.PacketSizeExact | src/packet.c:49-61 | for TCP the uint8_t size is 46 more than the payload if and only if the payload has at most 209 bytes; for any other protocol it is 255 |
| Headers.BuiltInNumbers | src/packet.c:127-205 | every byte of a built packet: GRE header, IP version, length 148, protocol 6, addresses, TCP ports 17350, flags and tcp_sum, zeros elsewhere, and the text up to 127 bytes |
| Packet.PacketEncapsulate | src/encap.c:20-31 | the six GRE bytes are written and the rest of the buffer is unchanged |
| Packet.SetIp | src/packet.c:69-82 | the stores turn the IP header into the one specified and change nothing else |
| Packet.SetTcp | src/packet.c:84-91 | the stores turn the TCP header into the one specified and change nothing else |
| Packet.ServHandlePkt | src/packet.c:294-331 | swapping, replacing, summing and swapping back amounts to replacing ip_src and stamping ip_sum |
| Packet.ServHandlePktDest | src/packet.c:333-370 | the same for ip_dst |
| Packet.PreparedSrc | src/packet.c:299-312 | at the moment of the checksum the header is the byte-swapped image of the new header |
| Packet.Restored | src/packet.c:315-328 | the swaps after the checksum undo the swaps before it, in either order |
| Packet.SaveClientIp | src/packet.c:372-376 | the saved value is the packet's ip_src |
| Packet.CreatePacketsDes | src/packet.c:170-205 | a fresh packet of GRE, IP, TCP header and zero-padded payload, for texts up to 128 bytes |
| Packet.CreatePackets | src/packet.c:127-168 | each of the 174 bytes is the built byte XOR its key byte, but for a NUL after the payload |
| Packet.ServRecFromCli | src/packet.c:243-268 | each of the 174 buffer bytes XOR its key byte, but for one NUL at the end of the encrypted text |
| Packet.ServCliEncrypt | src/packet.c:221-241 | exactly 46 + n bytes are sent, each the packet byte at its index XOR its key byte |
| Rewrite.HandlePktFrame | src/packet.c:294-331 | only the bytes of ip_src and ip_sum change and ip_src is the new address |
| Rewrite.HandlePktDestFrame | src/packet.c:333-370 | only the bytes of ip_dst and ip_sum change and ip_dst is the new address |
| Rewrite.HandlePktIdempotent | src/packet.c:294-370 | rewriting twice is rewriting once, ip_sum included |
| Rewrite.LaterServerOverrides | src/packet.c:294-370 | a later rewrite replaces an earlier one completely |
| Rewrite.RewritesCommute | src/packet.c:294-370 | the two rewrites commute on whole packets |
| Rewrite.OnlyLastAddressesCount | src/packet.c:294-370 | after any chain of rewrites in any order, the packet is what the last source and the last destination alone would leave, ip_sum included |
| Rewrite.IncrementalUpdate | src/packet.c:294-370 | on whole packets and for both rewrites, giving a packet the address B instead of A adds exactly A - B to its ip_sum modulo 65535; ip_sum stays the same if and only if A and B agree modulo 65535 |
| Rewrite.FinalHeaderAccepted | src/packet.c:299-328 | a stamped header verifies if and only if host-order ip_len is ip_src + ip_dst modulo 257 |
| Rewrite.HandlePktVerifies | src/packet.c:294-370 | after either rewrite the image is always accepted, and the header itself exactly under that condition on the original packet |
| Wire.Hop | src/packet.c:253-264 | over the encrypted hop every byte up to the end of the payload arrives, but for a NUL at the first payload byte that equals its key byte, where the text is cut; behind the payload the bare key arrives |
| Wire.ClientHop | src/packet.c:127-268 | the same from create_packets to serv_rec_from_cli, payloads of 128 bytes included |
| Wire.ServerHop | src/packet.c:221-268 | the same from serv_cli_encrypt_free to the client |
| Wire.RecoveredIsWhole | src/encrypt.c:19-28 | a payload arrives whole if and only if it is at most 127 bytes long and no byte equals its key byte |
| Wire.LeadingKeyByte | src/encrypt.c:19-28 | a payload that starts with 0x56 arrives empty, whatever follows |
| Wire.PartialReceive | src/packet.c:248-264 | a short read that has the headers delivers them, and the payload cut at the bytes read |
| Programs.ClientAddresses | src/client.c:82-97 | the client goes on if and only if the three names are known and different |
| Programs.ClientRequest | src/client.c:112-117 | 46 bytes and the text are sent, each the byte of the packet built with flags 0x02, encrypted in its place |
| Programs.ServerRequestLeg | src/server.c:145-178 | the 168 bytes forwarded are the rewritten packet from its byte 6 on; the saved client address and the text to connect to are those specified |
| Programs.DestinationLeg | src/destination.c:98-126 | 46 bytes and the text are sent, from byte 6 on of a packet built with flags 0x16 for the source of the packet received, although that address goes through text |
| Programs.ServerReplyLeg | src/server.c:189-209 | as many bytes as headers and payload text have are sent to the client, each the re-encapsulated and rewritten byte encrypted in its place, although the address goes through text |
| Delivery.RequestDecrypted | src/server.c:145-155 | what the server decrypts has the client's IP header and TCP header byte for byte, flags 0x02 and both checksums verifying, and the text with the bare key behind it, key collisions or not |
| Delivery.RequestDelivered | src/server.c:155-178 | every one of the 168 bytes the destination receives is the one the server decrypted, but for ip_sum and ip_src; it is from the server, to the destination, with TCP flags 0x02 |
| Delivery.ReencapsulationRestores | src/server.c:195-203 | re-encapsulating the answer restores the packet the destination built, with only ip_dst and ip_sum changed |
| Delivery.ReplyPacketBytes | src/server.c:194-203 | of any answer, the server sends on the first 168 bytes behind a GRE header, with only ip_dst and ip_sum changed |
| Delivery.ReplyDelivered | src/server.c:189-209 | what the client decrypts is from the destination, to the client, with the destination's TCP header, flags 0x16, and the recovered response with the bare key behind it; the server sends 46 bytes and the text |
| Delivery.UnproxiedRequest | src/packet.c:283-292 | a destination the client connects to directly reads 126.86.52.18 as the source, whatever hosts and text |
| Delivery.UnproxiedAnswerText | src/packet.c:243-268 | the client's text of an answer that was never encrypted: it starts six bytes late and is scrambled up to its first meeting with the key |
| Delivery.UnproxiedAnswerSource | src/packet.c:243-268 | the client reads 242.81.6.0 as the source of that answer |
| Delivery.UnproxiedHeaderRejected | src/packet.c:283-292 | for any two hosts of the table and any text, the encrypted header such a destination reads does not verify |
| Delivery.TableHeadersNeverVerify | src/packet.c:312-313 | for any two hosts of the table and the code's length, a stamped header does not verify |
| Session.InvPreserved | src/server.c:142-215 | every step, the client's connect to either program included, keeps the invariant that fixes each process's state and each channel's content |
| Session.Reachable | src/server.c:142-215 | the invariant holds after every run, under every interleaving and for all command lines, misrouted connections included |
| Theorems.NamesAccepted | src/client.c:86-97 | a session gets past the client's checks if and only if its three names are known and different |
| Theorems.AddressesDiffer | src/client.c:92-93 | the client's string comparisons make the three 32-bit addresses different |
| Theorems.ServerKnowsBothEnds | src/server.c:154-169 | the address saved is the client's and the text connected to is the one the client looked up |
| Theorems.RequestAtDestination | src/server.c:155-178 | the routed request keeps the TCP header and the text, and carries server and destination addresses |
| Theorems.AnswerAtClient | src/client.c:123-126 | the routed answer keeps the TCP header and carries destination and client addresses |
| Theorems.EndToEnd | src/client.c:105-126 | in every reachable state and for all command lines, a destination holds the request with the right addresses, the recovered text and the client's TCP header if and only if the server brought it, and a client that is done holds such an answer if and only if the server finished |
| Theorems.NeverMisrouted | src/client.c:105-110 | unless the destination program was started with a name of the server's address, no client takes it for the server |
| Theorems.RequestsSoundIff | src/client.c:105-110 | every run brings only proper requests to the destination if and only if the client does not look for the server where the destination program listens |
| Theorems.MisroutedCommandLines | src/destination.c:36-46 | command lines for h1, h2 and h4 and a run of them that brings the destination something else |
| Theorems.WholeMessages | src/client.c:112-126 | messages that go through the server arrive unchanged if and only if they fit and no byte equals its key byte |
| Theorems.ClientStaysHidden | src/server.c:155-178 | no packet between server and destination, in either direction and in any reachable state, has the client's address as source or destination |
| Theorems.DeliveredHeadersNeverVerify | src/packet.c:243-370 | in every reachable state no IP header held by a destination or by a client that is done verifies: stamped, misrouted or end-of-file |
| Theorems.BuffersSuffice | src/packet.c:253-254 | in every reachable state each message in flight has its NUL inside its receiver's buffer and each address text fits the parser |
| Theorems.MessageSizes | src/packet.c:207-241 | in every reachable state each message has 46 bytes and its text, and each one to the destination from the server 168 |
| Theorems.RunsEnd | src/server.c:142-215 | no run has more than twelve steps |
| Theorems.RunsEndInOutcomes | src/server.c:142-215 | every run that cannot go on has ended in one of the states the command lines allow, so nothing deadlocks before the client is finished |
| Theorems.OutcomesHappen | src/server.c:142-215 | each of those states is the end of some run |
| Theorems.OutcomeIsUniqueIff | src/server.c:81-92 | all maximal runs end in the same state if and only if server and destination program do not both listen where the client looks for the server |
| Theorems.EveryRunCompletes | src/server.c:142-215 | every run can be continued to such a state, with the same program at the other end of the client's connection |
| Theorems.DeliveredExactlyWhenConsistent | src/client.c:86-126 | every maximal run delivers request and answer if and only if the client named three different known hosts and the other programs were started with the matching names; otherwise a client that is done holds end-of-file without text, or the scrambled answer of a destination it took for the server |
| Interleavings.RunsExactly | src/server.c:142-215 | for all command lines, a sequence of events is a run if and only if it is repetition-free, stays on one route the command lines open, and has every event after its causes |
| Interleavings.ConsistentRunsExactly | src/client.c:105-126 | with three different known hosts and matching names, the runs are exactly the sequences of the twelve events of a proxied session in causal order |
| Interleavings.StateAfterRun | src/server.c:142-215 | every such sequence happens, and route and set of events alone determine all three programs and all six channels, in closed form, whatever the order |
| Theorems.ShippedMessagesSurvive | src/client.c:112-117 | the compiled-in request and response arrive whole |

## Left out

- Socket creation, `bind`, `listen`, `accept`, error returns of `send` and `recv`: operating-system calls; only channels, successful transfers and end-of-file are modelled.
- Merged messages and reads shorter than the headers: the code has no framing.
- `print_packet` and the other printing functions, command-line counting and `fgets`: user interface.
- `malloc` and `free`: buffers are fresh arrays that are never freed.
- Packet.ServCliEncrypt: does not model the source's store one byte past the allocated bytes; the buffer here is one byte longer, and what is sent is the same.
- Packet.CreatePackets: does not model protocols other than TCP or payload texts above 128 bytes, which no caller passes and which overrun the source's buffer.
- The rest of `client_packet.c`, the other example programs and the OpenSSL guide: demonstrations outside the VPN.
- Conformance of the GRE header to RFC 2784 and of `tcp_sum` to RFC 9293: the code uses a shorter header and does not sum a pseudo-header.
- Confidentiality of the XOR encryption: only its arithmetic is modelled.

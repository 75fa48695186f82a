/** What serv_handle_pkt and serv_handle_pkt_dest do to a packet, and what their
    checksum is worth. */
module Rewrite {
  import opened Bytes
  import opened OnesComplement
  import opened Headers

  // ---------- frame ----------

  lemma PutFrame16(h: seq<byte>, o: nat, v: uint16)
    requires o + 2 <= |h|
    ensures forall i :: 0 <= i < |h| && !(o <= i < o + 2) ==> Put16(h, o, v)[i] == h[i]
  {
  }

  lemma PutFrame32(h: seq<byte>, o: nat, v: uint32)
    requires o + 4 <= |h|
    ensures forall i :: 0 <= i < |h| && !(o <= i < o + 4) ==> Put32(h, o, v)[i] == h[i]
  {
  }

  lemma StampFrame(h: IpHeader)
    ensures forall i :: 0 <= i < IP_SIZE && !(IP_SUM <= i < IP_SUM + 2) ==> Stamp(h)[i] == h[i]
  {
  }

  /** Only ip_src and ip_sum change, and ip_src becomes the new address. */
  lemma HandlePktFrame(p: seq<byte>, a: uint32)
    requires |p| >= TCP_START
    ensures Get32(IpPart(HandlePkt(p, a)), IP_SRC) == a
    ensures forall i :: 0 <= i < |p| && !(16 <= i < 22) ==> HandlePkt(p, a)[i] == p[i]
  {
    var h := IpPart(p);
    GetPut32(h, IP_SRC, a);
    PutFrame32(h, IP_SRC, a);
    StampFrame(Put32(h, IP_SRC, a));
    RewrittenIp(p, RewriteSrc(h, a));
    hide RewriteSrc, Stamp, Put32;
  }

  /** Only ip_dst and ip_sum change, and ip_dst becomes the new address. */
  lemma HandlePktDestFrame(p: seq<byte>, a: uint32)
    requires |p| >= TCP_START
    ensures Get32(IpPart(HandlePktDest(p, a)), IP_DST) == a
    ensures forall i :: 0 <= i < |p| && !(16 <= i < 18) && !(22 <= i < 26) ==> HandlePktDest(p, a)[i] == p[i]
  {
    var h := IpPart(p);
    GetPut32(h, IP_DST, a);
    PutFrame32(h, IP_DST, a);
    StampFrame(Put32(h, IP_DST, a));
    RewrittenIp(p, RewriteDst(h, a));
    hide RewriteDst, Stamp, Put32;
  }

  lemma RewrittenIp(p: seq<byte>, h: IpHeader)
    requires |p| >= TCP_START
    ensures IpPart(WithIp(p, h)) == h
  {
  }

  // ---------- algebra ----------

  /** A stamp depends on everything but the old ip_sum, so stamping forgets it. */
  lemma StampForgetsSum(h: IpHeader, v: uint16)
    ensures Stamp(Put16(h, IP_SUM, v)) == Stamp(h)
  {
  }

  lemma StampIdempotent(h: IpHeader)
    ensures Stamp(Stamp(h)) == Stamp(h)
  {
  }

  lemma PutSrcOverSum(h: IpHeader, v: uint16, a: uint32)
    ensures Put32(Put16(h, IP_SUM, v), IP_SRC, a) == Put16(Put32(h, IP_SRC, a), IP_SUM, v)
    ensures Put32(Put16(h, IP_SUM, v), IP_DST, a) == Put16(Put32(h, IP_DST, a), IP_SUM, v)
  {
  }

  lemma PutTwice(h: IpHeader, a: uint32, b: uint32)
    ensures Put32(Put32(h, IP_SRC, a), IP_SRC, b) == Put32(h, IP_SRC, b)
    ensures Put32(Put32(h, IP_DST, a), IP_DST, b) == Put32(h, IP_DST, b)
    ensures Put32(Put32(h, IP_SRC, a), IP_DST, b) == Put32(Put32(h, IP_DST, b), IP_SRC, a)
  {
  }

  /** The two rewrites, on an already stamped header. */
  lemma RewriteAfterStamp(h: IpHeader, b: uint32)
    ensures RewriteSrc(Stamp(h), b) == RewriteSrc(h, b)
    ensures RewriteDst(Stamp(h), b) == RewriteDst(h, b)
  {
    hide Put16, Put32, Image, Checksum;
    var v := Swap16(Checksum(Image(h)));
    PutSrcOverSum(h, v, b);
    StampForgetsSum(Put32(h, IP_SRC, b), v);
    StampForgetsSum(Put32(h, IP_DST, b), v);
  }

  /** A later server replaces an earlier one completely, ip_sum included. */
  lemma LaterServerOverrides(p: seq<byte>, a: uint32, b: uint32)
    requires |p| >= TCP_START
    ensures HandlePkt(HandlePkt(p, a), b) == HandlePkt(p, b)
    ensures HandlePktDest(HandlePktDest(p, a), b) == HandlePktDest(p, b)
  {
    hide Put16, Put32, Stamp;
    var h := IpPart(p);
    RewrittenIp(p, RewriteSrc(h, a));
    RewrittenIp(p, RewriteDst(h, a));
    RewriteAfterStamp(Put32(h, IP_SRC, a), b);
    RewriteAfterStamp(Put32(h, IP_DST, a), b);
    PutTwice(h, a, b);
  }

  lemma HandlePktIdempotent(p: seq<byte>, a: uint32)
    requires |p| >= TCP_START
    ensures HandlePkt(HandlePkt(p, a), a) == HandlePkt(p, a)
    ensures HandlePktDest(HandlePktDest(p, a), a) == HandlePktDest(p, a)
  {
    hide HandlePkt, HandlePktDest;
    LaterServerOverrides(p, a, a);
  }

  /** The two rewrites commute on whole packets. */
  lemma RewritesCommute(p: seq<byte>, a: uint32, b: uint32)
    requires |p| >= TCP_START
    ensures HandlePktDest(HandlePkt(p, a), b) == HandlePkt(HandlePktDest(p, b), a)
  {
    hide Put16, Put32, Stamp;
    var h := IpPart(p);
    RewrittenIp(p, RewriteSrc(h, a));
    RewrittenIp(p, RewriteDst(h, b));
    RewriteAfterStamp(Put32(h, IP_SRC, a), b);
    RewriteAfterStamp(Put32(h, IP_DST, b), a);
    PutTwice(h, a, b);
  }

  /** What one server does to a packet on its way. */
  datatype Turn = Src(addr: uint32) | Dst(addr: uint32)

  function HandleTurn(p: seq<byte>, t: Turn): (r: seq<byte>)
    requires |p| >= TCP_START
    ensures |r| == |p|
  {
    match t case Src(a) => HandlePkt(p, a) case Dst(a) => HandlePktDest(p, a)
  }

  /** The packet after any chain of servers. */
  function HandleAll(p: seq<byte>, turns: seq<Turn>): (r: seq<byte>)
    requires |p| >= TCP_START
    ensures |r| == |p|
  {
    if turns == [] then p else HandleTurn(HandleAll(p, turns[..|turns| - 1]), turns[|turns| - 1])
  }

  /** The last source address written, or a when there is none; and destination. */
  function LastSrc(a: uint32, turns: seq<Turn>): uint32 {
    if turns == [] then a
    else
      var n := |turns| - 1;
      match turns[n] case Src(b) => b case Dst(_) => LastSrc(a, turns[..n])
  }

  function LastDst(a: uint32, turns: seq<Turn>): uint32 {
    if turns == [] then a
    else
      var n := |turns| - 1;
      match turns[n] case Dst(b) => b case Src(_) => LastDst(a, turns[..n])
  }

  /** Of any chain of rewrites, in any order, only the last source and the last
      destination are left in the packet, ip_sum included. */
  lemma {:induction false} OnlyLastAddressesCount(p: seq<byte>, turns: seq<Turn>)
    requires |p| >= TCP_START && turns != []
    ensures var src, dst := LastSrc(Get32(IpPart(p), IP_SRC), turns), LastDst(Get32(IpPart(p), IP_DST), turns);
      HandleAll(p, turns) == HandlePktDest(HandlePkt(p, src), dst)
    decreases |turns|
  {
    hide HandlePkt, HandlePktDest, IpPart, Get32;
    var n := |turns| - 1;
    var first, t := turns[..n], turns[n];
    var src, dst := LastSrc(Get32(IpPart(p), IP_SRC), first), LastDst(Get32(IpPart(p), IP_DST), first);
    if first == [] {
      OwnAddress(p, t.addr);
    } else {
      OnlyLastAddressesCount(p, first);
      var q := HandlePkt(p, src);
      match t {
        case Src(a) =>
          RewritesCommute(q, a, dst);
          LaterServerOverrides(p, src, a);
        case Dst(a) =>
          LaterServerOverrides(q, dst, a);
      }
    }
  }

  /** Rewriting the other address to itself changes nothing more. */
  lemma OwnAddress(p: seq<byte>, a: uint32)
    requires |p| >= TCP_START
    ensures HandlePktDest(HandlePkt(p, a), Get32(IpPart(p), IP_DST)) == HandlePkt(p, a)
    ensures HandlePktDest(HandlePkt(p, Get32(IpPart(p), IP_SRC)), a) == HandlePktDest(p, a)
  {
    hide Put16, Put32, Stamp;
    var h := IpPart(p);
    RewrittenIp(p, RewriteSrc(h, a));
    RewrittenIp(p, RewriteSrc(h, Get32(h, IP_SRC)));
    RewriteAfterStamp(Put32(h, IP_SRC, a), Get32(h, IP_DST));
    RewriteAfterStamp(Put32(h, IP_SRC, Get32(h, IP_SRC)), a);
    PutOwn(h, a);
  }

  lemma PutOwn(h: IpHeader, a: uint32)
    ensures Put32(h, IP_SRC, Get32(h, IP_SRC)) == h
    ensures Put32(Put32(h, IP_SRC, a), IP_DST, Get32(h, IP_DST)) == Put32(h, IP_SRC, a)
  {
    BytesOfJoin32(h[15], h[14], h[13], h[12]);
    BytesOfJoin32(h[19], h[18], h[17], h[16]);
  }

  // ---------- the stamped checksum ----------

  /** In the image both addresses are laid out most significant byte first, so
      each adds its own value to the word sum, modulo 65535. */
  lemma ImageSum(h: IpHeader) returns (k: int)
    ensures WordSum(Image(h)) == Word(h, 0) + Join16(h[3], h[2]) + Word(h, 4) + Word(h, 6) + Word(h, 8)
                               + Get32(h, IP_SRC) + Get32(h, IP_DST) - 0xffff * k
  {
    var i := Image(h);
    TenWords(i);
    k := Join16(h[15], h[14]) + Join16(h[19], h[18]);
    AddressWords(h[15], h[14], h[13], h[12]);
    AddressWords(h[19], h[18], h[17], h[16]);
    ImageWords(h);
  }

  lemma AddressWords(b3: byte, b2: byte, b1: byte, b0: byte)
    ensures Join16(b3, b2) + Join16(b1, b0) == Join32(b3, b2, b1, b0) - 0xffff * Join16(b3, b2)
  {
  }

  /** The stored ip_sum, read natively, is congruent to minus the image's word sum. */
  lemma StampWitness(h: IpHeader) returns (k: int)
    ensures Get16(Stamp(h), IP_SUM) == 0xffff * k - WordSum(Image(h))
  {
    var w := WordSum(Image(h));
    var j := OnesSumWitness(w);
    var i := FinishIsNegation(OnesSum(w));
    GetPut16(h, IP_SUM, Swap16(Checksum(Image(h))));
    k := i + j;
  }

  /** What the stored ip_sum of two headers says about two addresses a and b when
      the word sums of their images differ by a - b. */
  lemma StampsDiffer(g: IpHeader, f: IpHeader, a: int, b: int, k: int)
    requires WordSum(Image(g)) - WordSum(Image(f)) == a - b + 0xffff * k
    ensures Congruent(Get16(Stamp(f), IP_SUM) - Get16(Stamp(g), IP_SUM), a - b)
    ensures Get16(Stamp(g), IP_SUM) == Get16(Stamp(f), IP_SUM) <==> Congruent(a, b)
  {
    hide Stamp, Image, WordSum, Get16, Congruent, Checksum, Swap16;
    var i := StampWitness(g);
    var j := StampWitness(f);
    SumOfStamp(g);
    SumOfStamp(f);
    SameSum(Image(g), Image(f));
    Increment(Get16(Stamp(g), IP_SUM), Get16(Stamp(f), IP_SUM), WordSum(Image(g)), WordSum(Image(f)), a, b, i, j, k);
  }

  function SumOf(p: seq<byte>): uint16
    requires |p| >= TCP_START
  {
    Get16(IpPart(p), IP_SUM)
  }

  /** Giving the same packet the address b instead of a adds exactly a - b to the
      ip_sum it is sent with, modulo 65535, for source and destination alike; so
      ip_sum stays the same exactly when the two addresses agree modulo 65535. */
  lemma IncrementalUpdate(p: seq<byte>, a: uint32, b: uint32)
    requires |p| >= TCP_START
    ensures Congruent(SumOf(HandlePkt(p, b)) - SumOf(HandlePkt(p, a)), a - b)
    ensures SumOf(HandlePkt(p, a)) == SumOf(HandlePkt(p, b)) <==> Congruent(a, b)
    ensures Congruent(SumOf(HandlePktDest(p, b)) - SumOf(HandlePktDest(p, a)), a - b)
    ensures SumOf(HandlePktDest(p, a)) == SumOf(HandlePktDest(p, b)) <==> Congruent(a, b)
  {
    hide Stamp, Put32, Image, WordSum, Get16, Congruent, WithIp, IpPart;
    var h := IpPart(p);
    RewrittenIp(p, RewriteSrc(h, a));
    RewrittenIp(p, RewriteSrc(h, b));
    RewrittenIp(p, RewriteDst(h, a));
    RewrittenIp(p, RewriteDst(h, b));
    var k := SrcMoves(h, a, b);
    StampsDiffer(Put32(h, IP_SRC, a), Put32(h, IP_SRC, b), a, b, k);
    var j := DstMoves(h, a, b);
    StampsDiffer(Put32(h, IP_DST, a), Put32(h, IP_DST, b), a, b, j);
  }

  lemma Increment(sa: int, sb: int, wa: int, wb: int, a: int, b: int, i: int, j: int, k: int)
    requires sa == 0xffff * i - wa && sb == 0xffff * j - wb
    requires wa - wb == a - b + 0xffff * k
    ensures Congruent(sb - sa, a - b)
    ensures Congruent(wa, wb) <==> Congruent(a, b)
  {
    CongruentBy(sb - sa, a - b, j - i + k);
    if Congruent(a, b) {
      var m := Witness(a, b);
      CongruentBy(wa, wb, m + k);
    }
    if Congruent(wa, wb) {
      var m := Witness(wa, wb);
      CongruentBy(a, b, m - k);
    }
  }

  lemma SumOfStamp(h: IpHeader)
    ensures Get16(Stamp(h), IP_SUM) == Swap16(Checksum(Image(h)))
  {
  }

  lemma SameSum(g: seq<byte>, f: seq<byte>)
    ensures Swap16(Checksum(g)) == Swap16(Checksum(f)) <==> Congruent(WordSum(g), WordSum(f))
  {
    hide Checksum;
    Swap16Twice(Checksum(g));
    Swap16Twice(Checksum(f));
    ChecksumDiscriminates(g, f);
  }

  lemma SrcOnly(h: IpHeader, a: uint32)
    ensures var g := Put32(h, IP_SRC, a);
      && Word(g, 0) == Word(h, 0) && g[2] == h[2] && g[3] == h[3] && Word(g, 4) == Word(h, 4)
      && Word(g, 6) == Word(h, 6) && Word(g, 8) == Word(h, 8)
      && Get32(g, IP_SRC) == a && Get32(g, IP_DST) == Get32(h, IP_DST)
  {
    GetPut32(h, IP_SRC, a);
    PutFrame32(h, IP_SRC, a);
    hide Put32;
  }

  lemma SrcMoves(h: IpHeader, a: uint32, b: uint32) returns (k: int)
    ensures WordSum(Image(Put32(h, IP_SRC, a))) - WordSum(Image(Put32(h, IP_SRC, b))) == a - b + 0xffff * k
  {
    hide Put32, Image, WordSum, Word, Get32;
    SrcOnly(h, a);
    SrcOnly(h, b);
    var i := ImageSum(Put32(h, IP_SRC, a));
    var j := ImageSum(Put32(h, IP_SRC, b));
    k := j - i;
  }

  lemma DstOnly(h: IpHeader, a: uint32)
    ensures var g := Put32(h, IP_DST, a);
      && Word(g, 0) == Word(h, 0) && g[2] == h[2] && g[3] == h[3] && Word(g, 4) == Word(h, 4)
      && Word(g, 6) == Word(h, 6) && Word(g, 8) == Word(h, 8)
      && Get32(g, IP_DST) == a && Get32(g, IP_SRC) == Get32(h, IP_SRC)
  {
    GetPut32(h, IP_DST, a);
    PutFrame32(h, IP_DST, a);
    hide Put32;
  }

  lemma DstMoves(h: IpHeader, a: uint32, b: uint32) returns (k: int)
    ensures WordSum(Image(Put32(h, IP_DST, a))) - WordSum(Image(Put32(h, IP_DST, b))) == a - b + 0xffff * k
  {
    hide Put32, Image, WordSum, Word, Get32;
    DstOnly(h, a);
    DstOnly(h, b);
    var i := ImageSum(Put32(h, IP_DST, a));
    var j := ImageSum(Put32(h, IP_DST, b));
    k := j - i;
  }

  /** The verifier always accepts the image the proxy summed. */
  lemma ImageAccepted(h: IpHeader)
    ensures Checksum(Image(Stamp(h))) == Swap16(Get16(Stamp(h), IP_SUM))
    ensures Word(Image(Stamp(h)), IP_SUM) == 0
  {
    hide Checksum;
    assert Image(Stamp(h)) == Image(h);
    SumOfStamp(h);
    Swap16Twice(Checksum(Image(h)));
  }

  /** It accepts the header the proxy sends exactly when host-order ip_len is
      ip_src + ip_dst modulo 257 (65535 = 255 * 257). */
  lemma FinalHeaderAccepted(h: IpHeader)
    ensures Accepts(Stamp(h), IP_SUM)
       <==> (Get32(h, IP_SRC) + Get32(h, IP_DST) - Swap16(Get16(h, IP_LEN))) % 257 == 0
  {
    hide Checksum, Stamp, Put16, Image, Get16, Get32, Swap16, WordSum, Word, Congruent;
    var z := Put16(h, IP_SUM, 0);
    StampedZeroed(h);
    ImageAccepted(h);
    var d := SumsDiffer(h);
    ChecksumDiscriminates(z, Image(h));
    DivisibleBy255(WordSum(z), WordSum(Image(h)), Get32(h, IP_SRC) + Get32(h, IP_DST) - Swap16(Get16(h, IP_LEN)), d);
  }

  lemma StampedZeroed(h: IpHeader)
    ensures Put16(Stamp(h), IP_SUM, 0) == Put16(h, IP_SUM, 0)
    ensures Image(Stamp(h)) == Image(h)
  {
  }

  lemma DivisibleBy255(x: int, y: int, n: int, d: int)
    requires x - y == 255 * (n - 257 * d)
    ensures Congruent(x, y) <==> n % 257 == 0
  {
    if Congruent(x, y) {
      var k := Witness(x, y);
      assert n == 257 * (k + d);
    }
    if n % 257 == 0 {
      CongruentBy(x, y, n / 257 - d);
    }
  }

  lemma SumsDiffer(h: IpHeader) returns (d: int)
    ensures WordSum(Put16(h, IP_SUM, 0)) - WordSum(Image(h))
         == 255 * (Get32(h, IP_SRC) + Get32(h, IP_DST) - Swap16(Get16(h, IP_LEN)) - 257 * d)
  {
    var z := Put16(h, IP_SUM, 0);
    SwapJoin16(h[3], h[2]);
    assert Swap16(Get16(h, IP_LEN)) == Join16(h[2], h[3]);
    var s := AddressModulo257(h[15], h[14], h[13], h[12]);
    var t := AddressModulo257(h[19], h[18], h[17], h[16]);
    LengthModulo257(h[2], h[3]);
    d := s + t - h[2];
    assert Get32(h, IP_SRC) == Join32(h[15], h[14], h[13], h[12]);
    assert Get32(h, IP_DST) == Join32(h[19], h[18], h[17], h[16]);
    hide *;
    TenWords(z);
    ZeroedWords(h);
    TenWords(Image(h));
    ImageWords(h);
  }

  lemma LengthModulo257(b1: byte, b0: byte)
    ensures Join16(b1, b0) - Join16(b0, b1) == 255 * (257 * b1 - Join16(b1, b0))
  {
  }

  lemma ImageWords(h: IpHeader)
    ensures var i := Image(h);
      && Word(i, 0) == Word(h, 0) && Word(i, 2) == Join16(h[3], h[2]) && Word(i, 4) == Word(h, 4)
      && Word(i, 6) == Word(h, 6) && Word(i, 8) == Word(h, 8) && Word(i, 10) == 0
      && Word(i, 12) == Join16(h[15], h[14]) && Word(i, 14) == Join16(h[13], h[12])
      && Word(i, 16) == Join16(h[19], h[18]) && Word(i, 18) == Join16(h[17], h[16])
  {
  }

  lemma ZeroedWords(h: IpHeader)
    ensures var z := Put16(h, IP_SUM, 0);
      && Word(z, 0) == Word(h, 0) && Word(z, 2) == Join16(h[2], h[3]) && Word(z, 4) == Word(h, 4)
      && Word(z, 6) == Word(h, 6) && Word(z, 8) == Word(h, 8) && Word(z, 10) == 0
      && Word(z, 12) == Join16(h[12], h[13]) && Word(z, 14) == Join16(h[14], h[15])
      && Word(z, 16) == Join16(h[16], h[17]) && Word(z, 18) == Join16(h[18], h[19])
  {
    PutFrame16(h, IP_SUM, 0);
    PutZero16(h, IP_SUM);
    hide Put16;
  }

  lemma PutZero16(h: seq<byte>, o: nat)
    requires o + 2 <= |h|
    ensures Word(Put16(h, o, 0), o) == 0
  {
  }

  /** 256 is -1 modulo 257: an address in memory order sums to 256 times its value. */
  lemma AddressModulo257(b3: byte, b2: byte, b1: byte, b0: byte) returns (k: int)
    ensures Join16(b0, b1) + Join16(b2, b3) - Join16(b3, b2) - Join16(b1, b0)
         == 255 * (Join32(b3, b2, b1, b0) - 257 * k)
  {
    k := b3 * 65281 + b2 * 255 + b1;
  }

  /** A rewrite changes one address of the header and keeps length and the other address. */
  lemma RewrittenFields(h: IpHeader, a: uint32)
    ensures Get32(RewriteSrc(h, a), IP_SRC) == a == Get32(RewriteDst(h, a), IP_DST)
    ensures Get32(RewriteSrc(h, a), IP_DST) == Get32(h, IP_DST)
    ensures Get32(RewriteDst(h, a), IP_SRC) == Get32(h, IP_SRC)
    ensures Get16(RewriteSrc(h, a), IP_LEN) == Get16(RewriteDst(h, a), IP_LEN) == Get16(h, IP_LEN)
    ensures Stamp(RewriteSrc(h, a)) == RewriteSrc(h, a) && Stamp(RewriteDst(h, a)) == RewriteDst(h, a)
  {
    StampIdempotent(Put32(h, IP_SRC, a));
    StampIdempotent(Put32(h, IP_DST, a));
    GetPut32(h, IP_SRC, a);
    GetPut32(h, IP_DST, a);
    PutFrame32(h, IP_SRC, a);
    PutFrame32(h, IP_DST, a);
    StampFrame(Put32(h, IP_SRC, a));
    StampFrame(Put32(h, IP_DST, a));
    hide Stamp, Put32;
  }

  /** On whole packets: the image of the header serv_handle_pkt leaves is always
      accepted; the header itself exactly when length and addresses agree modulo 257. */
  lemma HandlePktVerifies(p: seq<byte>, a: uint32)
    requires |p| >= TCP_START
    ensures var h, r := IpPart(p), IpPart(HandlePkt(p, a));
      && Checksum(Image(r)) == Swap16(Get16(r, IP_SUM))
      && (Accepts(r, IP_SUM) <==> (a + Get32(h, IP_DST) - Swap16(Get16(h, IP_LEN))) % 257 == 0)
    ensures var h, r := IpPart(p), IpPart(HandlePktDest(p, a));
      && Checksum(Image(r)) == Swap16(Get16(r, IP_SUM))
      && (Accepts(r, IP_SUM) <==> (Get32(h, IP_SRC) + a - Swap16(Get16(h, IP_LEN))) % 257 == 0)
  {
    hide Stamp, RewriteSrc, RewriteDst, Image, Checksum, Get16, Get32, Swap16, Accepts, IpPart, WithIp;
    var h := IpPart(p);
    var r, q := RewriteSrc(h, a), RewriteDst(h, a);
    RewrittenIp(p, r);
    RewrittenIp(p, q);
    RewrittenFields(h, a);
    ImageAccepted(r);
    ImageAccepted(q);
    FinalHeaderAccepted(r);
    FinalHeaderAccepted(q);
  }
}

/** Copying bytes into a frame under construction. */
module Buffers {
  import opened Prelude

  /** `s` with `src` written over it from position `at`, byte by byte. */
  ghost function Splice(s: seq<byte>, at: nat, src: seq<byte>): (r: seq<byte>)
    requires at + |src| <= |s|
    ensures |r| == |s|
    decreases |src|
  {
    if src == [] then s else Splice(s[at := src[0]], at + 1, src[1..])
  }

  lemma {:induction false} SpliceIs(s: seq<byte>, at: nat, src: seq<byte>)
    requires at + |src| <= |s|
    ensures Splice(s, at, src) == s[..at] + src + s[at + |src|..]
    decreases |src|
  {
    if src != [] {
      SpliceIs(s[at := src[0]], at + 1, src[1..]);
    }
  }

  /** Writing the next piece right after the last. */
  lemma {:induction false} SpliceNext(s: seq<byte>, at: nat, a: seq<byte>, b: seq<byte>)
    requires at + |a| + |b| <= |s|
    ensures Splice(Splice(s, at, a), at + |a|, b) == Splice(s, at, a + b)
    decreases |a|
  {
    if a == [] {
      assert a + b == b;
    } else {
      SpliceNext(s[at := a[0]], at + 1, a[1..], b);
      assert (a + b)[1..] == a[1..] + b;
    }
  }

  /** Rewriting part of a piece. */
  lemma SpliceOver(s: seq<byte>, at: nat, a: seq<byte>, k: nat, b: seq<byte>)
    requires at + |a| <= |s| && k + |b| <= |a|
    ensures Splice(Splice(s, at, a), at + k, b) == Splice(s, at, a[..k] + b + a[k + |b|..])
  {
    var x, y, z := a[..k], a[k..k + |b|], a[k + |b|..];
    assert a == x + (y + z) && x + (b + z) == x + b + z;
    SpliceNext(s, at, x, y + z);
    SpliceNext(s, at, x, b + z);
    SpliceNext(Splice(s, at, x), at + k, y, z);
    SpliceNext(Splice(s, at, x), at + k, b, z);
    SpliceSwap(Splice(s, at, x), at + k, y, z, b);
  }

  lemma SpliceSwap(s: seq<byte>, at: nat, y: seq<byte>, z: seq<byte>, b: seq<byte>)
    requires at + |y| + |z| <= |s| && |b| == |y|
    ensures Splice(Splice(s, at, y + z), at, b) == Splice(s, at, b + z)
  {
    SpliceIs(s, at, y + z);
    SpliceIs(s, at, b + z);
    SpliceIs(Splice(s, at, y + z), at, b);
  }

  /** Two pieces written one after the other from the front. */
  lemma TwoPieces(s: seq<byte>, a: seq<byte>, b: seq<byte>)
    requires |a| + |b| <= |s|
    ensures Splice(Splice(s, 0, a), |a|, b) == a + b + s[|a| + |b|..]
  {
    var ab := a + b;
    SpliceNext(s, 0, a, b);
    SpliceFront(s, ab);
    assert |ab| == |a| + |b|;
  }

  lemma SpliceFront(s: seq<byte>, a: seq<byte>)
    requires |a| <= |s|
    ensures Splice(s, 0, a) == a + s[|a|..]
  {
    SpliceIs(s, 0, a);
    assert s[..0] == [] && [] + a == a;
  }

  /** `copy_from_slice` into `dst[at..]`. */
  method CopyIn(dst: array<byte>, at: nat, src: seq<byte>)
    requires at + |src| <= dst.Length
    modifies dst
    ensures dst[..] == Splice(old(dst[..]), at, src)
  {
    SpliceIs(dst[..], at, src);
    forall i | at <= i < at + |src| {
      dst[i] := src[i - at];
    }
  }

  /** Writes `piece` right after the bytes `done` that were written from `base` on. */
  method WriteNext(dst: array<byte>, ghost s: seq<byte>, ghost base: nat, ghost done: seq<byte>, at: nat,
                   piece: seq<byte>)
    requires |s| == dst.Length && at == base + |done| && at + |piece| <= dst.Length
    requires dst[..] == Splice(s, base, done)
    modifies dst
    ensures dst[..] == Splice(s, base, done + piece)
  {
    SpliceNext(s, base, done, piece);
    CopyIn(dst, at, piece);
  }
}

/** kernel/net/src/ethernet.rs. */
module Ethernet {
  import opened Prelude
  import opened Buffers

  const HEADER_LEN := 14
  const ETHERTYPE_IPV4: seq<byte> := [0x08, 0x00]

  type Mac = a: seq<byte> | |a| == 6 witness [0, 0, 0, 0, 0, 0]
  type EtherType = t: seq<byte> | |t| == 2 witness [0, 0]

  datatype EthernetHeader = EthernetHeader(dst: Mac, src: Mac, ethertype: EtherType)

  function Parse(buf: seq<byte>): Option<(EthernetHeader, seq<byte>)> {
    if |buf| < HEADER_LEN then None
    else Some((EthernetHeader(buf[0..6], buf[6..12], buf[12..14]), buf[HEADER_LEN..]))
  }

  /** The destination in bytes 0 to 5, the source in bytes 6 to 11, the type in bytes 12 and 13. */
  ghost predicate HasFields(b: seq<byte>, h: EthernetHeader) {
    && |b| >= HEADER_LEN
    && (forall i :: 0 <= i < 6 ==> b[i] == h.dst[i])
    && (forall i :: 0 <= i < 6 ==> b[6 + i] == h.src[i])
    && b[12] == h.ethertype[0] && b[13] == h.ethertype[1]
  }

  /** The header on the wire. */
  ghost function Bytes(h: EthernetHeader): (b: seq<byte>)
    ensures |b| == HEADER_LEN && HasFields(b, h)
  {
    h.dst + h.src + h.ethertype
  }

  /** A frame parses exactly when it has a whole header, to the fields at their places and the bytes after them. */
  lemma ParseIff(buf: seq<byte>, h: EthernetHeader, payload: seq<byte>)
    ensures Parse(buf) == Some((h, payload)) <==> HasFields(buf, h) && payload == buf[HEADER_LEN..]
    ensures Parse(buf) == None <==> |buf| < HEADER_LEN
  {
    if HasFields(buf, h) {
      assert buf[0..6] == h.dst && buf[6..12] == h.src && buf[12..14] == h.ethertype;
    }
  }

  /** Fills in a header at the front of `buf`. */
  method Write(buf: array<byte>, dst: Mac, src: Mac, ethertype: EtherType) returns (r: Option<nat>)
    modifies buf
    ensures r == if buf.Length < HEADER_LEN then None else Some(HEADER_LEN)
    ensures r == None ==> buf[..] == old(buf[..])
    ensures r.Some? ==> buf[..] == Splice(old(buf[..]), 0, Bytes(EthernetHeader(dst, src, ethertype)))
  {
    if buf.Length < HEADER_LEN {
      return None;
    }
    ghost var s := buf[..];
    CopyIn(buf, 0, dst);
    WriteNext(buf, s, 0, dst, 6, src);
    WriteNext(buf, s, 0, dst + src, 12, ethertype);
    return Some(HEADER_LEN);
  }

  /** A written header parses back, and the rest of the frame is its payload. */
  lemma ParseBytes(h: EthernetHeader, rest: seq<byte>)
    ensures Parse(Bytes(h) + rest) == Some((h, rest))
  {
    var b := Bytes(h) + rest;
    assert b[0..6] == h.dst && b[6..12] == h.src && b[12..14] == h.ethertype && b[14..] == rest;
  }
}

/** kernel/net/src/ipv4.rs (section 3.1 of RFC 791). */
module Ipv4 {
  import opened Prelude
  import opened Buffers
  import opened Checksums

  const HEADER_LEN := 20
  const PROTO_ICMP: byte := 1

  type Address = a: seq<byte> | |a| == 4 witness [0, 0, 0, 0]

  datatype Ipv4Header = Ipv4Header(src: Address, dst: Address, protocol: byte, totalLen: nat)

  function Parse(buf: seq<byte>): Option<(Ipv4Header, seq<byte>)> {
    if |buf| < HEADER_LEN || buf[0] / 16 != 4 || buf[0] % 16 != 5 then None
    else
      var totalLen := Word(buf[2], buf[3]);
      var payloadEnd := Min(totalLen, |buf|);
      if payloadEnd <= HEADER_LEN then None
      else Some((Ipv4Header(buf[12..16], buf[16..20], buf[9], totalLen), buf[HEADER_LEN..payloadEnd]))
  }

  /** The total length field holds 16 bits. */
  function TotalLen(payloadLen: nat): (n: nat)
    ensures n < 0x1_0000
  {
    (HEADER_LEN + payloadLen) % 0x1_0000
  }

  /** Version 4 with a 20-byte header, no service type, the total length, no identification, the flag against
      fragmenting and no offset, a time to live of 64, the protocol. */
  ghost predicate HasFront(b: seq<byte>, protocol: byte, payloadLen: nat) {
    && |b| >= 10 && b[0] == 0x45 && b[1] == 0 && Word(b[2], b[3]) == TotalLen(payloadLen)
    && b[4] == b[5] == 0 && b[6] == 0x40 && b[7] == 0 && b[8] == 64 && b[9] == protocol
  }

  /** Everything before the addresses, with the checksum field zero. */
  ghost function Front(protocol: byte, payloadLen: nat): (b: seq<byte>)
    ensures |b| == 12 && HasFront(b, protocol, payloadLen) && b[10] == b[11] == 0
  {
    [0x45] + [0] + ToBytes(TotalLen(payloadLen)) + [0, 0] + [0x40, 0x00] + [64] + [protocol] + [0, 0]
  }

  ghost function RawHeader(src: Address, dst: Address, protocol: byte, payloadLen: nat): (b: seq<byte>)
    ensures |b| == HEADER_LEN
  {
    Front(protocol, payloadLen) + src + dst
  }

  /** The header on the wire. */
  ghost function Bytes(src: Address, dst: Address, protocol: byte, payloadLen: nat): (b: seq<byte>)
    ensures |b| == HEADER_LEN
  {
    var raw := RawHeader(src, dst, protocol, payloadLen);
    Store(raw, 10, Checksum(raw))
  }

  method WriteFront(buf: array<byte>, at: nat, protocol: byte, payloadLen: nat)
    requires at + HEADER_LEN <= buf.Length
    modifies buf
    ensures buf[..] == Splice(old(buf[..]), at, Front(protocol, payloadLen))
  {
    ghost var s := buf[..];
    var len := ToBytes(TotalLen(payloadLen));
    ghost var done: seq<byte> := [0x45];
    CopyIn(buf, at, [0x45]);
    WriteNext(buf, s, at, done, at + 1, [0]);
    done := done + [0];
    WriteNext(buf, s, at, done, at + 2, len);
    done := done + len;
    WriteNext(buf, s, at, done, at + 4, [0, 0]);
    done := done + [0, 0];
    WriteNext(buf, s, at, done, at + 6, [0x40, 0x00]);
    done := done + [0x40, 0x00];
    WriteNext(buf, s, at, done, at + 8, [64]);
    done := done + [64];
    WriteNext(buf, s, at, done, at + 9, [protocol]);
    done := done + [protocol];
    WriteNext(buf, s, at, done, at + 10, [0, 0]);
  }

  /** Fills in a header at `offset`, then its checksum. */
  method Write(buf: array<byte>, offset: nat, src: Address, dst: Address, protocol: byte, payloadLen: nat)
    returns (r: Option<nat>)
    modifies buf
    ensures r == if buf.Length < offset + HEADER_LEN then None else Some(offset + HEADER_LEN)
    ensures r == None ==> buf[..] == old(buf[..])
    ensures r.Some? ==> buf[..] == Splice(old(buf[..]), offset, Bytes(src, dst, protocol, payloadLen))
  {
    if buf.Length < offset + HEADER_LEN {
      return None;
    }
    ghost var s, front := buf[..], Front(protocol, payloadLen);
    ghost var raw := RawHeader(src, dst, protocol, payloadLen);
    WriteFront(buf, offset, protocol, payloadLen);
    WriteNext(buf, s, offset, front, offset + 12, src);
    WriteNext(buf, s, offset, front + src, offset + 16, dst);
    SpliceIs(s, offset, raw);
    assert buf[..][offset..offset + HEADER_LEN] == raw;
    var cksum := InternetChecksum(buf[..][offset..offset + HEADER_LEN]);
    SpliceOver(s, offset, raw, 10, ToBytes(cksum));
    CopyIn(buf, offset + 10, ToBytes(cksum));
    return Some(offset + HEADER_LEN);
  }

  /** Every header written here verifies. */
  lemma HeaderVerifies(src: Address, dst: Address, protocol: byte, payloadLen: nat)
    ensures Checksum(Bytes(src, dst, protocol, payloadLen)) == 0
  {
    var raw := RawHeader(src, dst, protocol, payloadLen);
    assert raw[10] == Front(protocol, payloadLen)[10] && raw[11] == Front(protocol, payloadLen)[11];
    StoredChecksumVerifies(raw, 10);
  }

  /** The fields of section 3.1 of RFC 791, each at its place. */
  ghost predicate HasFields(h: seq<byte>, src: Address, dst: Address, protocol: byte, payloadLen: nat) {
    |h| == HEADER_LEN && HasFront(h, protocol, payloadLen) && h[12..16] == src && h[16..20] == dst
  }

  lemma WrittenFields(src: Address, dst: Address, protocol: byte, payloadLen: nat)
    ensures var h := Bytes(src, dst, protocol, payloadLen);
            && HasFields(h, src, dst, protocol, payloadLen)
            && 256 * (h[2] as nat) + h[3] == (HEADER_LEN + payloadLen) % 0x1_0000
  {
    var raw := RawHeader(src, dst, protocol, payloadLen);
    RawFields(Front(protocol, payloadLen), src, dst, protocol, payloadLen);
    StoreKeepsFields(raw, src, dst, protocol, payloadLen, Checksum(raw));
  }

  lemma RawFields(front: seq<byte>, src: Address, dst: Address, protocol: byte, payloadLen: nat)
    requires |front| == 12 && HasFront(front, protocol, payloadLen)
    ensures HasFields(front + src + dst, src, dst, protocol, payloadLen)
  {
  }

  /** The checksum lies between the fields. */
  lemma StoreKeepsFields(h: seq<byte>, src: Address, dst: Address, protocol: byte, payloadLen: nat, c: nat)
    requires HasFields(h, src, dst, protocol, payloadLen) && c < 0x1_0000
    ensures HasFields(Store(h, 10, c), src, dst, protocol, payloadLen)
  {
    var h' := Store(h, 10, c);
    assert forall i :: 0 <= i < 10 ==> h'[i] == h'[..10][i] == h[i];
    assert forall i :: 12 <= i < 20 ==> h'[i] == h'[12..][i - 12] == h[i];
    assert h'[12..16] == h[12..16] && h'[16..20] == h[16..20];
  }

  /** A packet parses exactly when it starts with 0x45, the byte of an IPv4 header without options, and a byte
      follows the header, both in the buffer and by the total length. The payload ends with the shorter of the two. */
  lemma ParseIff(buf: seq<byte>)
    ensures Parse(buf).Some? <==> |buf| > HEADER_LEN && buf[0] == 0x45 && 256 * (buf[2] as nat) + buf[3] > HEADER_LEN
    ensures Parse(buf).Some? ==>
      var (h, payload) := Parse(buf).value;
      && (forall i :: 0 <= i < 4 ==> h.src[i] == buf[12 + i] && h.dst[i] == buf[16 + i])
      && h.protocol == buf[9] && h.totalLen == 256 * (buf[2] as nat) + buf[3]
      && |payload| == Min(|buf|, h.totalLen) - HEADER_LEN
      && forall i :: 0 <= i < |payload| ==> payload[i] == buf[HEADER_LEN + i]
  {
  }

  lemma PacketParses(h: seq<byte>, src: Address, dst: Address, protocol: byte, payload: seq<byte>, padding: seq<byte>)
    requires HasFields(h, src, dst, protocol, |payload|) && 0 < |payload| && HEADER_LEN + |payload| < 0x1_0000
    ensures Parse(h + (payload + padding)) == Some((Ipv4Header(src, dst, protocol, HEADER_LEN + |payload|), payload))
  {
    var b, n := h + (payload + padding), HEADER_LEN + |payload|;
    assert b[12..16] == h[12..16] && b[16..20] == h[16..20];
    assert b[HEADER_LEN..n] == payload;
  }

  /** A packet of `payload` under a header written here, followed by any padding, parses back to the same
      addresses, protocol and payload exactly when the payload is not empty and the total length fits 16 bits. */
  lemma PacketParsesIff(h: seq<byte>, src: Address, dst: Address, protocol: byte, payload: seq<byte>,
                        padding: seq<byte>)
    requires HasFields(h, src, dst, protocol, |payload|)
    ensures
      Parse(h + (payload + padding)) == Some((Ipv4Header(src, dst, protocol, HEADER_LEN + |payload|), payload))
      <==> 0 < |payload| && HEADER_LEN + |payload| < 0x1_0000
  {
    if 0 < |payload| && HEADER_LEN + |payload| < 0x1_0000 {
      PacketParses(h, src, dst, protocol, payload, padding);
    } else {
      var b := h + (payload + padding);
      assert b[2] == h[2] && b[3] == h[3];
    }
  }
}

/** kernel/net/src/icmp.rs ("Echo or Echo Reply Message" of RFC 792). */
module Icmp {
  import opened Prelude
  import opened Buffers
  import opened Checksums
  import Ethernet
  import Ipv4

  const ECHO_REQUEST: byte := 8
  const ECHO_REPLY: byte := 0
  const HEADER_LEN := 8

  /** The reply with its checksum field zero. */
  ghost function RawReply(request: seq<byte>): (m: seq<byte>)
    requires |request| >= HEADER_LEN
    ensures |m| == |request|
  {
    [ECHO_REPLY] + [0] + [0] + [0] + request[4..HEADER_LEN] + request[HEADER_LEN..]
  }

  ghost function Reply(request: seq<byte>): (m: seq<byte>)
    requires |request| >= HEADER_LEN
    ensures |m| == |request|
  {
    var raw := RawReply(request);
    Store(raw, 2, Checksum(raw))
  }

  /** The whole reply frame. */
  ghost function ReplyFrame(ethSrc: Ethernet.Mac, ipSrc: Ipv4.Address, ourMac: Ethernet.Mac, ourIp: Ipv4.Address,
                            request: seq<byte>): (f: seq<byte>)
    requires |request| >= HEADER_LEN
    ensures |f| == 34 + |request|
  {
    Headers(ethSrc, ipSrc, ourMac, ourIp, |request|) + Reply(request)
  }

  /** The Ethernet and IPv4 headers of the reply frame. */
  ghost function Headers(ethSrc: Ethernet.Mac, ipSrc: Ipv4.Address, ourMac: Ethernet.Mac, ourIp: Ipv4.Address,
                         len: nat): (h: seq<byte>)
    ensures |h| == 34
  {
    Ethernet.Bytes(Ethernet.EthernetHeader(ethSrc, ourMac, Ethernet.ETHERTYPE_IPV4))
    + Ipv4.Bytes(ourIp, ipSrc, Ipv4.PROTO_ICMP, len)
  }

  method WriteHeaders(buf: array<byte>, ethSrc: Ethernet.Mac, ipSrc: Ipv4.Address, ourMac: Ethernet.Mac,
                      ourIp: Ipv4.Address, len: nat) returns (off: nat)
    requires buf.Length >= 34
    modifies buf
    ensures off == 34 && buf[..] == Splice(old(buf[..]), 0, Headers(ethSrc, ipSrc, ourMac, ourIp, len))
  {
    SpliceNext(buf[..], 0, Ethernet.Bytes(Ethernet.EthernetHeader(ethSrc, ourMac, Ethernet.ETHERTYPE_IPV4)),
               Ipv4.Bytes(ourIp, ipSrc, Ipv4.PROTO_ICMP, len));
    var off1 := Ethernet.Write(buf, ethSrc, ourMac, Ethernet.ETHERTYPE_IPV4);
    var off2 := Ipv4.Write(buf, off1.value, ourIp, ipSrc, Ipv4.PROTO_ICMP, len);
    return off2.value;
  }

  method WriteReply(buf: array<byte>, off: nat, request: seq<byte>)
    requires |request| >= HEADER_LEN && off + |request| <= buf.Length
    modifies buf
    ensures buf[..] == Splice(old(buf[..]), off, Reply(request))
  {
    ghost var s, raw := buf[..], RawReply(request);
    ghost var done: seq<byte> := [ECHO_REPLY];
    CopyIn(buf, off, [ECHO_REPLY]);
    WriteNext(buf, s, off, done, off + 1, [0]);
    done := done + [0];
    WriteNext(buf, s, off, done, off + 2, [0]);
    done := done + [0];
    WriteNext(buf, s, off, done, off + 3, [0]);
    done := done + [0];
    WriteNext(buf, s, off, done, off + 4, request[4..HEADER_LEN]);
    done := done + request[4..HEADER_LEN];
    WriteNext(buf, s, off, done, off + HEADER_LEN, request[HEADER_LEN..]);
    SpliceIs(s, off, raw);
    assert buf[..][off..off + |request|] == raw;
    var cksum := InternetChecksum(buf[..][off..off + |request|]);
    SpliceOver(s, off, raw, 2, ToBytes(cksum));
    CopyIn(buf, off + 2, ToBytes(cksum));
  }

  /** `handle_icmp`: builds a reply frame for an echo request when it fits `replyBuf`. */
  method HandleIcmp(ethSrc: Ethernet.Mac, ipSrc: Ipv4.Address, ourMac: Ethernet.Mac, ourIp: Ipv4.Address,
                    request: seq<byte>, replyBuf: array<byte>) returns (r: Option<nat>)
    modifies replyBuf
    ensures r == None <==> |request| < HEADER_LEN || request[0] != ECHO_REQUEST || replyBuf.Length < 34 + |request|
    ensures r == None ==> replyBuf[..] == old(replyBuf[..])
    ensures r.Some? ==> r.value == 34 + |request|
    ensures r.Some? ==> replyBuf[..] == ReplyFrame(ethSrc, ipSrc, ourMac, ourIp, request) + old(replyBuf[..])[r.value..]
  {
    if |request| < HEADER_LEN || request[0] != ECHO_REQUEST {
      return None;
    }
    var totalLen := Ethernet.HEADER_LEN + Ipv4.HEADER_LEN + |request|;
    if replyBuf.Length < totalLen {
      return None;
    }
    TwoPieces(replyBuf[..], Headers(ethSrc, ipSrc, ourMac, ourIp, |request|), Reply(request));
    var off := WriteHeaders(replyBuf, ethSrc, ipSrc, ourMac, ourIp, |request|);
    WriteReply(replyBuf, off, request);
    return Some(totalLen);
  }

  /** An answered request: the reply carries its identifier, sequence number and data, and verifies. */
  lemma ReplyAnswers(request: seq<byte>)
    requires |request| >= HEADER_LEN
    ensures var m := Reply(request); m[0] == ECHO_REPLY && m[1] == 0 && m[4..] == request[4..] && Checksum(m) == 0
  {
    var raw := RawReply(request);
    assert raw[2] == 0 && raw[3] == 0;
    StoredChecksumVerifies(raw, 2);
    var m := Reply(request);
    assert m[..2] == raw[..2] == [ECHO_REPLY, 0];
    assert m[0] == m[..2][0] && m[1] == m[..2][1];
    assert m[4..] == raw[4..] == request[4..];
  }

  /** Parsed as the receiver would, padding included, the frame is addressed to the requester. */
  ghost predicate ArrivesWhole(frame: seq<byte>, ethSrc: Ethernet.Mac, ipSrc: Ipv4.Address, ourMac: Ethernet.Mac,
                               ourIp: Ipv4.Address, request: seq<byte>)
    requires |request| >= HEADER_LEN
  {
    match Ethernet.Parse(frame)
    case None => false
    case Some((eth, packet)) =>
      && eth == Ethernet.EthernetHeader(ethSrc, ourMac, Ethernet.ETHERTYPE_IPV4)
      && |packet| >= Ipv4.HEADER_LEN && Checksum(packet[..Ipv4.HEADER_LEN]) == 0
      && Ipv4.Parse(packet)
         == Some((Ipv4.Ipv4Header(ourIp, ipSrc, Ipv4.PROTO_ICMP, Ipv4.HEADER_LEN + |request|), Reply(request)))
  }

  /** The reply frame, padded or not, arrives whole exactly when the request has at most 65515 bytes. */
  lemma ReplyArrivesIff(ethSrc: Ethernet.Mac, ipSrc: Ipv4.Address, ourMac: Ethernet.Mac, ourIp: Ipv4.Address,
                        request: seq<byte>, padding: seq<byte>)
    requires |request| >= HEADER_LEN
    ensures ArrivesWhole(ReplyFrame(ethSrc, ipSrc, ourMac, ourIp, request) + padding,
                         ethSrc, ipSrc, ourMac, ourIp, request)
            <==> |request| <= 65515
  {
    var eth := Ethernet.EthernetHeader(ethSrc, ourMac, Ethernet.ETHERTYPE_IPV4);
    var ip := Ipv4.Bytes(ourIp, ipSrc, Ipv4.PROTO_ICMP, |request|);
    var packet := ip + (Reply(request) + padding);
    assert ReplyFrame(ethSrc, ipSrc, ourMac, ourIp, request) + padding == Ethernet.Bytes(eth) + packet;
    Ethernet.ParseBytes(eth, packet);
    Ipv4.HeaderVerifies(ourIp, ipSrc, Ipv4.PROTO_ICMP, |request|);
    assert packet[..Ipv4.HEADER_LEN] == ip;
    Ipv4.WrittenFields(ourIp, ipSrc, Ipv4.PROTO_ICMP, |request|);
    Ipv4.PacketParsesIff(ip, ourIp, ipSrc, Ipv4.PROTO_ICMP, Reply(request), padding);
  }
}

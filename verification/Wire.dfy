/** Packets as byte sequences: reading fields, and writing a TLS Certificate message the way
    RFC 791, RFC 9293 and RFC 5246 lay it out. The writer is the reference the two kernel
    parsers are measured against. */
module Wire {
  import opened Common

  type Bytes = seq<byte>

  // --- Reading ----------------------------------------------------------------------------

  const ERR_READ_FAILED := 7

  function Be2(p: Bytes, o: nat): nat
    requires o + 2 <= |p|
  {
    p[o] as nat * 256 + p[o + 1] as nat
  }

  function Be3(p: Bytes, o: nat): nat
    requires o + 3 <= |p|
  {
    p[o] as nat * 65536 + p[o + 1] as nat * 256 + p[o + 2] as nat
  }

  function Be4(p: Bytes, o: nat): nat
    requires o + 4 <= |p|
  {
    p[o] as nat * 16777216 + p[o + 1] as nat * 65536 + p[o + 2] as nat * 256 + p[o + 3] as nat
  }

  /** The outcome of reading a field of the packet. */
  datatype Load<+T> = Loaded(value: T) | ReadFailed
  {
    predicate IsFailure() {
      ReadFailed?
    }

    function PropagateFailure<U>(): Result<U, nat> {
      Err(ERR_READ_FAILED)
    }

    function Extract(): T
      requires Loaded?
    {
      value
    }
  }

  /** Reading a field succeeds exactly when it lies within the packet. */
  function LoadU8(p: Bytes, o: nat): Load<byte> {
    if o + 1 <= |p| then Loaded(p[o]) else ReadFailed
  }

  function LoadU16(p: Bytes, o: nat): Load<nat> {
    if o + 2 <= |p| then Loaded(Be2(p, o)) else ReadFailed
  }

  function LoadU32(p: Bytes, o: nat): Load<nat> {
    if o + 4 <= |p| then Loaded(Be4(p, o)) else ReadFailed
  }

  function LowNibble(b: byte): nat {
    b as nat % 16
  }

  function HighNibble(b: byte): nat {
    b as nat / 16
  }

  /** b, cut or zero-padded to n bytes. */
  function Pad(b: Bytes, n: nat): (r: Bytes)
    ensures |r| == n
  {
    seq(n, i requires 0 <= i => if i < |b| then b[i] else 0)
  }

  // --- Writing ----------------------------------------------------------------------------

  function Put2(v: nat): Bytes
    requires v < 65536
  {
    [(v / 256) as byte, (v % 256) as byte]
  }

  function Put3(v: nat): Bytes
    requires v < 16777216
  {
    [(v / 65536) as byte, (v / 256 % 256) as byte, (v % 256) as byte]
  }

  function Put4(v: nat): Bytes
    requires v < 4294967296
  {
    [(v / 16777216) as byte, (v / 65536 % 256) as byte, (v / 256 % 256) as byte, (v % 256) as byte]
  }

  /** What a sender chooses freely: every field the parsers skip is an arbitrary byte string of
      the right length, and anything may follow the record. */
  datatype Frame = Frame(
    macs: Bytes,                   // destination and source hardware address
    ipVersion: nat, ipHead: Bytes, // version nibble; type of service to time to live
    ipChecksum: Bytes,
    srcIp: nat, dstIp: nat,
    ipOptions: Bytes,
    srcPort: nat, dstPort: nat,
    tcpSequence: Bytes,            // sequence and acknowledgement number
    tcpReserved: nat, tcpTail: Bytes, // reserved bits; flags to urgent pointer
    tcpOptions: Bytes,
    tlsVersion: nat,
    certs: seq<Bytes>,
    trailer: Bytes)
  {
    /** Header length fields count 32-bit words and allow 5 to 15 of them. */
    ghost predicate Valid() {
      && |macs| == 12
      && ipVersion < 16 && |ipHead| == 8 && |ipChecksum| == 2
      && srcIp < 4294967296 && dstIp < 4294967296
      && |ipOptions| <= 40 && |ipOptions| % 4 == 0
      && srcPort < 65536 && dstPort < 65536
      && |tcpSequence| == 8 && tcpReserved < 16 && |tcpTail| == 7
      && |tcpOptions| <= 40 && |tcpOptions| % 4 == 0
      && tlsVersion < 65536
      && |certs| >= 1 && (forall i :: 0 <= i < |certs| ==> |certs[i]| >= 1)
      && ListLength(certs) + 7 <= 16384
    }

    /** Internet header length: 5 words and the options. */
    function Ihl(): nat {
      5 + |ipOptions| / 4
    }

    function DataOffset(): nat {
      5 + |tcpOptions| / 4
    }

    function TcpOffset(): nat {
      14 + 20 + |ipOptions|
    }

    function TlsOffset(): nat {
      TcpOffset() + 20 + |tcpOptions|
    }

    /** Where the first certificate's length field starts, and where its data starts. */
    function ListOffset(): nat {
      TlsOffset() + 12
    }

    function LeafOffset(): nat {
      ListOffset() + 3
    }
  }

  /** Size of a certificate_list: each certificate has a 3-byte length in front. */
  function ListLength(certs: seq<Bytes>): nat {
    if certs == [] then 0 else 3 + |certs[0]| + ListLength(certs[1..])
  }

  /** certificate_list of section 7.4.2 of RFC 5246. */
  function PutCerts(certs: seq<Bytes>): (b: Bytes)
    requires ListLength(certs) < 16777216
    ensures |b| == ListLength(certs)
  {
    if certs == [] then [] else Put3(|certs[0]|) + certs[0] + PutCerts(certs[1..])
  }

  /** The part of an IP packet's front that does not depend on the addresses. */
  function IpStart(f: Frame): Bytes
    requires f.Valid()
  {
    f.macs + [8, 0] + [(f.ipVersion * 16 + f.Ihl()) as byte] + f.ipHead + [6] + f.ipChecksum
  }

  /** The Ethernet and IPv4 headers, section 3.1 of RFC 791. */
  function PutIp(f: Frame): (b: Bytes)
    requires f.Valid()
    ensures |b| == f.TcpOffset()
  {
    IpStart(f) + Put4(f.srcIp) + Put4(f.dstIp) + f.ipOptions
  }

  /** The TCP header, section 3.1 of RFC 9293. */
  function PutTcp(f: Frame): (b: Bytes)
    requires f.Valid()
    ensures |b| == f.TlsOffset() - f.TcpOffset()
  {
    Put2(f.srcPort) + Put2(f.dstPort) + f.tcpSequence
    + [(f.DataOffset() * 16 + f.tcpReserved) as byte] + f.tcpTail + f.tcpOptions
  }

  /** The record header (type handshake), the handshake header (type certificate) and the length
      of the list: sections 6.2.1 and 7.4 of RFC 5246. */
  function PutTlsHead(f: Frame): (b: Bytes)
    requires f.Valid()
    ensures |b| == 12
  {
    var n := ListLength(f.certs);
    [22] + Put2(f.tlsVersion) + Put2(n + 7) + [11] + Put3(n + 3) + Put3(n)
  }

  function PutFrame(f: Frame): (b: Bytes)
    requires f.Valid()
    ensures |b| == f.ListOffset() + ListLength(f.certs) + |f.trailer|
  {
    PutIp(f) + PutTcp(f) + PutTlsHead(f) + PutCerts(f.certs) + f.trailer
  }

  // --- What a reader finds where ----------------------------------------------------------

  /** The part that starts at o. */
  ghost predicate At(p: Bytes, o: nat, part: Bytes) {
    o + |part| <= |p| && p[o..o + |part|] == part
  }

  lemma AtByte(p: Bytes, o: nat, part: Bytes, i: nat)
    requires At(p, o, part) && i < |part|
    ensures p[o + i] == part[i]
  {
    assert p[o..o + |part|][i] == part[i];
  }

  lemma AtConcat(p: Bytes, o: nat, a: Bytes, b: Bytes)
    requires At(p, o, a + b)
    ensures At(p, o, a) && At(p, o + |a|, b)
  {
    assert p[o..o + |a|] == p[o..o + |a + b|][..|a|] == (a + b)[..|a|];
    assert p[o + |a|..o + |a| + |b|] == p[o..o + |a + b|][|a|..] == (a + b)[|a|..];
  }

  lemma AtPut2(p: Bytes, o: nat, v: nat)
    requires v < 65536 && At(p, o, Put2(v))
    ensures Be2(p, o) == v
  {
    AtByte(p, o, Put2(v), 0);
    AtByte(p, o, Put2(v), 1);
  }

  lemma AtPut3(p: Bytes, o: nat, v: nat)
    requires v < 16777216 && At(p, o, Put3(v))
    ensures Be3(p, o) == v
  {
    AtByte(p, o, Put3(v), 0);
    AtByte(p, o, Put3(v), 1);
    AtByte(p, o, Put3(v), 2);
  }

  lemma AtPut4(p: Bytes, o: nat, v: nat)
    requires v < 4294967296 && At(p, o, Put4(v))
    ensures Be4(p, o) == v
  {
    AtByte(p, o, Put4(v), 0);
    AtByte(p, o, Put4(v), 1);
    AtByte(p, o, Put4(v), 2);
    AtByte(p, o, Put4(v), 3);
    assert v == v / 256 * 256 + v % 256;
    assert v / 256 == v / 65536 * 256 + v / 256 % 256;
    assert v / 65536 == v / 16777216 * 256 + v / 65536 % 256;
  }

  lemma IpStartFields(p: Bytes, f: Frame)
    requires f.Valid() && At(p, 0, IpStart(f))
    ensures Be2(p, 12) == 0x0800 && LowNibble(p[14]) == f.Ihl() && p[23] == 6
  {
    var vihl := [(f.ipVersion * 16 + f.Ihl()) as byte];
    var h1 := f.macs + [8, 0];
    var h2 := h1 + vihl;
    var h3 := h2 + f.ipHead;
    AtConcat(p, 0, h3 + [6], f.ipChecksum);
    AtConcat(p, 0, h3, [6]);
    AtConcat(p, 0, h2, f.ipHead);
    AtConcat(p, 0, h1, vihl);
    AtConcat(p, 0, f.macs, [8, 0]);
    AtByte(p, 12, [8, 0], 0);
    AtByte(p, 12, [8, 0], 1);
    AtByte(p, 14, vihl, 0);
    AtByte(p, 23, [6], 0);
  }

  lemma IpFields(p: Bytes, f: Frame)
    requires f.Valid() && At(p, 0, PutIp(f))
    ensures Be2(p, 12) == 0x0800 && LowNibble(p[14]) == f.Ihl() && p[23] == 6
    ensures Be4(p, 26) == f.srcIp && Be4(p, 30) == f.dstIp
  {
    var src, dst := Put4(f.srcIp), Put4(f.dstIp);
    AtConcat(p, 0, IpStart(f) + src + dst, f.ipOptions);
    AtConcat(p, 0, IpStart(f) + src, dst);
    AtConcat(p, 0, IpStart(f), src);
    IpStartFields(p, f);
    AtPut4(p, 26, f.srcIp);
    AtPut4(p, 30, f.dstIp);
  }

  lemma TcpFields(p: Bytes, f: Frame, t: nat)
    requires f.Valid() && At(p, t, PutTcp(f))
    ensures Be2(p, t) == f.srcPort && Be2(p, t + 2) == f.dstPort
    ensures HighNibble(p[t + 12]) == f.DataOffset()
  {
    var offset := [(f.DataOffset() * 16 + f.tcpReserved) as byte];
    var h1 := Put2(f.srcPort) + Put2(f.dstPort);
    var h2 := h1 + f.tcpSequence;
    var h3 := h2 + offset;
    var h4 := h3 + f.tcpTail;
    AtConcat(p, t, h4, f.tcpOptions);
    AtConcat(p, t, h3, f.tcpTail);
    AtConcat(p, t, h2, offset);
    AtConcat(p, t, h1, f.tcpSequence);
    AtConcat(p, t, Put2(f.srcPort), Put2(f.dstPort));
    AtPut2(p, t, f.srcPort);
    AtPut2(p, t + 2, f.dstPort);
    AtByte(p, t + 12, offset, 0);
  }

  lemma TlsFields(p: Bytes, f: Frame, t: nat)
    requires f.Valid() && At(p, t, PutTlsHead(f))
    ensures p[t] == 22 && Be2(p, t + 1) == f.tlsVersion && Be2(p, t + 3) == ListLength(f.certs) + 7
    ensures p[t + 5] == 11 && Be3(p, t + 9) == ListLength(f.certs)
  {
    var n := ListLength(f.certs);
    var h1 := [22] + Put2(f.tlsVersion);
    var h2 := h1 + Put2(n + 7);
    var h3 := h2 + [11];
    var h4 := h3 + Put3(n + 3);
    AtConcat(p, t, h4, Put3(n));
    AtConcat(p, t, h3, Put3(n + 3));
    AtConcat(p, t, h2, [11]);
    AtConcat(p, t, h1, Put2(n + 7));
    AtConcat(p, t, [22], Put2(f.tlsVersion));
    AtByte(p, t, [22], 0);
    AtPut2(p, t + 1, f.tlsVersion);
    AtPut2(p, t + 3, n + 7);
    AtByte(p, t + 5, [11], 0);
    AtPut3(p, t + 9, n);
  }

  /** The pieces of a written frame, each where the headers say it is. */
  lemma FrameParts(f: Frame)
    requires f.Valid()
    ensures var p := PutFrame(f);
            && At(p, 0, PutIp(f)) && At(p, f.TcpOffset(), PutTcp(f)) && At(p, f.TlsOffset(), PutTlsHead(f))
            && At(p, f.ListOffset(), PutCerts(f.certs))
  {
    var p := PutFrame(f);
    var p1 := PutIp(f) + PutTcp(f);
    var p2 := p1 + PutTlsHead(f);
    var p3 := p2 + PutCerts(f.certs);
    assert At(p, 0, p3 + f.trailer);
    AtConcat(p, 0, p3, f.trailer);
    AtConcat(p, 0, p2, PutCerts(f.certs));
    AtConcat(p, 0, p1, PutTlsHead(f));
    AtConcat(p, 0, PutIp(f), PutTcp(f));
  }
}

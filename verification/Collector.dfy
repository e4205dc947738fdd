/** The collector's packet parser: Ethernet, IPv4, TCP, TLS record, Certificate message. */
module Collector {
  import opened Common
  import opened Wire
  import K = KernelMaps

  const MAX_CERT_DATA := 4096
  const MAX_CHAIN := 10

  const ERR_PKT_TOO_SHORT := 1
  const ERR_NOT_IPV4 := 2
  const ERR_NOT_TCP := 3
  const ERR_NOT_TLS := 4
  const ERR_NOT_HANDSHAKE := 5
  const ERR_RINGBUF_FULL := 6

  const DROP_IDX_RING_FULL := 0
  const DROP_IDX_MALFORMED := 1
  const DROP_IDX_TOTAL := 2
  const DROP_COUNTER_ENTRIES := 4

  // --- Specification ----------------------------------------------------------------------

  /** Why a packet is given up: the error code, and which counters moved on the way. */
  datatype Stop = Stop(code: nat, malformed: bool, handshake: bool)

  /** What the parser knows of a packet when it asks for room in the ring buffer. */
  datatype Observation = Observation(
    srcIp: nat, dstIp: nat,
    srcPort: nat, dstPort: nat,
    tlsVersion: nat,
    copyLen: nat,
    chainDepth: nat,
    fingerprint: Fingerprint,
    certData: Bytes,
    issuer: Fingerprint)

  /** Up to k bytes of p from offset o: fewer if the packet ends first. */
  function Cut(p: Bytes, o: nat, k: nat): (b: Bytes)
    ensures |b| <= k
  {
    if o >= |p| then [] else p[o..Min(o + k, |p|)]
  }

  /** Number of certificate entries from offset o whose length field is readable and not zero,
      up to a bound. */
  function Entries(p: Bytes, o: nat, end: nat, bound: nat): nat
    decreases Max(0, end - o)
  {
    if bound == 0 || o + 3 > |p| || o + 3 > end || Be3(p, o) == 0 then 0
    else 1 + Entries(p, o + 3 + Be3(p, o), end, bound - 1)
  }

  function ChainDepth(p: Bytes, start: nat, total: nat): nat {
    Max(1, Entries(p, start, start + total, MAX_CHAIN))
  }

  /** The first bytes of the certificate whose length field is at offset o. */
  function CertPrefix(p: Bytes, o: nat): Fingerprint {
    if o + 3 > |p| then ZeroFingerprint() else Pad(Cut(p, o + 3, Min(Be3(p, o), 32)), 32)
  }

  /** What the parser makes of any packet. */
  function Outcome(p: Bytes): Result<Observation, Stop> {
    if |p| < 59 then Err(Stop(ERR_PKT_TOO_SHORT, false, false))
    else if Be2(p, 12) != 0x0800 then Err(Stop(ERR_NOT_IPV4, false, false))
    else if LowNibble(p[14]) < 5 then Err(Stop(ERR_NOT_IPV4, true, false))
    else if p[23] != 6 then Err(Stop(ERR_NOT_TCP, false, false))
    else OutcomeTcp(p, 14 + LowNibble(p[14]) * 4)
  }

  function OutcomeTcp(p: Bytes, tcp: nat): Result<Observation, Stop>
    requires 34 <= tcp && 59 <= |p|
  {
    if |p| < tcp + 20 then Err(Stop(ERR_PKT_TOO_SHORT, false, false))
    else if HighNibble(p[tcp + 12]) < 5 then Err(Stop(ERR_NOT_TCP, true, false))
    else OutcomeTls(p, tcp, tcp + HighNibble(p[tcp + 12]) * 4)
  }

  function OutcomeTls(p: Bytes, tcp: nat, tls: nat): Result<Observation, Stop>
    requires 34 <= tcp && tcp + 20 <= |p| && tcp + 20 <= tls
  {
    if |p| < tls + 5 || p[tls] != 22 then Err(Stop(ERR_NOT_TLS, false, false))
    else if Be2(p, tls + 3) == 0 || Be2(p, tls + 3) > 16384 then Err(Stop(ERR_NOT_TLS, true, false))
    else if |p| < tls + 15 || p[tls + 5] != 11 then Err(Stop(ERR_NOT_HANDSHAKE, false, true))
    else if Be3(p, tls + 12) == 0 || Be3(p, tls + 12) > 65535 then Err(Stop(ERR_NOT_HANDSHAKE, true, true))
    else if |p| == tls + 15 then Err(Stop(ERR_NOT_HANDSHAKE, false, true))
    else Ok(Observed(p, tcp, tls))
  }

  function Observed(p: Bytes, tcp: nat, tls: nat): Observation
    requires 34 <= tcp && tcp + 20 <= tls && tls + 15 < |p|
  {
    Observation(
      Be4(p, 26), Be4(p, 30), Be2(p, tcp), Be2(p, tcp + 2), Be2(p, tls + 1),
      |LeafData(p, tls)|,
      ChainDepth(p, tls + 12, Be3(p, tls + 9)),
      CertPrefix(p, tls + 12),
      Pad(LeafData(p, tls), MAX_CERT_DATA),
      IssuerPrefix(p, ChainDepth(p, tls + 12, Be3(p, tls + 9)), tls + 15 + Be3(p, tls + 12)))
  }

  /** The leaf's bytes, as far as they arrived and fit the event. */
  function LeafData(p: Bytes, tls: nat): Bytes
    requires tls + 15 < |p|
  {
    Cut(p, tls + 15, Min(Be3(p, tls + 12), MAX_CERT_DATA))
  }

  function IssuerPrefix(p: Bytes, depth: nat, o: nat): Fingerprint {
    if depth > 1 then CertPrefix(p, o) else ZeroFingerprint()
  }

  // --- Round trip with the writer ---------------------------------------------------------

  /** Entries of a list whose 3-byte length field lies within the first `room` bytes. */
  function HeadersWithin(certs: seq<Bytes>, room: int): nat {
    if certs == [] || room < 3 then 0
    else 1 + HeadersWithin(certs[1..], room - 3 - |certs[0]|)
  }

  /** As much of b as fits in `room` bytes. */
  function Clip(b: Bytes, room: int): Bytes {
    b[..Max(0, Min(|b|, room))]
  }

  /** The leaf's bytes among the first n bytes of a frame. */
  function LeafWithin(f: Frame, n: nat): Bytes
    requires |f.certs| >= 1
  {
    Clip(f.certs[0], n - f.LeafOffset())
  }

  /** What p shows of the leaf, cut or padded to a fingerprint: the key its certificate goes by. */
  function Shown(f: Frame, p: Bytes): Fingerprint
    requires |f.certs| >= 1
  {
    Pad(LeafWithin(f, |p|), 32)
  }

  /** The second certificate's bytes among the first n bytes of a frame. */
  function IssuerWithin(f: Frame, n: nat): Bytes
    requires |f.certs| >= 1
  {
    if |f.certs| >= 2 then Clip(f.certs[1], n - (f.LeafOffset() + |f.certs[0]| + 3)) else []
  }

  function DepthWithin(f: Frame, n: nat): nat {
    Min(MAX_CHAIN, HeadersWithin(f.certs, n - f.ListOffset()))
  }

  /** What an observer should report of a frame of which only the first n bytes arrive. */
  function Expected(f: Frame, n: nat): Observation
    requires |f.certs| >= 1
  {
    Observation(
      f.srcIp, f.dstIp, f.srcPort, f.dstPort, f.tlsVersion,
      Min(|LeafWithin(f, n)|, MAX_CERT_DATA), DepthWithin(f, n),
      Pad(LeafWithin(f, n), 32), Pad(LeafWithin(f, n), MAX_CERT_DATA), Pad(IssuerWithin(f, n), 32))
  }

  lemma CertsConsAt(p: Bytes, o: nat, certs: seq<Bytes>)
    requires certs != [] && ListLength(certs) < 16777216 && At(p, o, PutCerts(certs))
    ensures Be3(p, o) == |certs[0]| && At(p, o + 3, certs[0])
    ensures At(p, o + 3 + |certs[0]|, PutCerts(certs[1..]))
  {
    AtConcat(p, o, Put3(|certs[0]|) + certs[0], PutCerts(certs[1..]));
    AtConcat(p, o, Put3(|certs[0]|), certs[0]);
    AtPut3(p, o, |certs[0]|);
  }

  /** p is the part of a packet that arrived. */
  ghost predicate Arrived(p: Bytes, full: Bytes) {
    |p| <= |full| && p == full[..|p|]
  }

  lemma ArrivedBe3(p: Bytes, full: Bytes, o: nat)
    requires Arrived(p, full) && o + 3 <= |p|
    ensures Be3(p, o) == Be3(full, o)
  {
  }

  /** Walking a written list counts its entries, as far as they arrived. */
  lemma {:induction false} EntriesOfList(p: Bytes, full: Bytes, o: nat, certs: seq<Bytes>, bound: nat)
    requires Arrived(p, full) && ListLength(certs) < 16777216 && At(full, o, PutCerts(certs))
    requires forall i :: 0 <= i < |certs| ==> |certs[i]| >= 1
    ensures Entries(p, o, o + ListLength(certs), bound) == Min(bound, HeadersWithin(certs, |p| - o))
    decreases bound
  {
    if bound == 0 || certs == [] || |p| - o < 3 {
    } else {
      CertsConsAt(full, o, certs);
      ArrivedBe3(p, full, o);
      EntriesOfList(p, full, o + 3 + |certs[0]|, certs[1..], bound - 1);
    }
  }

  lemma CutOfPart(p: Bytes, full: Bytes, o: nat, part: Bytes, n: nat)
    requires Arrived(p, full) && At(full, o, part)
    ensures Pad(Cut(p, o, Min(|part|, n)), n) == Pad(Clip(part, |p| - o), n)
    ensures |Cut(p, o, Min(|part|, n))| == Min(|Clip(part, |p| - o)|, n)
  {
    var a, b := Cut(p, o, Min(|part|, n)), Clip(part, |p| - o);
    forall i | 0 <= i < |a| ensures i < |b| && a[i] == b[i] {
      AtByte(full, o, part, i);
    }
  }

  lemma PrefixOfCert(p: Bytes, full: Bytes, o: nat, certs: seq<Bytes>)
    requires certs != [] && ListLength(certs) < 16777216 && At(full, o, PutCerts(certs))
    requires Arrived(p, full)
    ensures CertPrefix(p, o) == Pad(Clip(certs[0], |p| - o - 3), 32)
  {
    CertsConsAt(full, o, certs);
    if o + 3 <= |p| {
      ArrivedBe3(p, full, o);
      CutOfPart(p, full, o + 3, certs[0], 32);
    } else {
      assert Clip(certs[0], |p| - o - 3) == [];
    }
  }

  /** The header fields the parser looks at, as a frame lays them out. */
  ghost predicate HeadersLaid(full: Bytes, f: Frame) {
    var t, l := f.TcpOffset(), f.TlsOffset();
    && l + 15 <= |full|
    && Be2(full, 12) == 0x0800 && full[23] == 6
    && Be4(full, 26) == f.srcIp && Be4(full, 30) == f.dstIp
    && LowNibble(full[14]) >= 5 && 14 + LowNibble(full[14]) * 4 == t
    && Be2(full, t) == f.srcPort && Be2(full, t + 2) == f.dstPort
    && HighNibble(full[t + 12]) >= 5 && t + HighNibble(full[t + 12]) * 4 == l
    && full[l] == 22 && Be2(full, l + 1) == f.tlsVersion && 1 <= Be2(full, l + 3) <= 16384
    && full[l + 5] == 11 && Be3(full, l + 9) == ListLength(f.certs)
    && 1 <= Be3(full, l + 12) <= 65535
  }

  lemma FrameHeadersLaid(f: Frame)
    requires f.Valid()
    ensures HeadersLaid(PutFrame(f), f)
    ensures At(PutFrame(f), f.ListOffset(), PutCerts(f.certs))
  {
    hide PutFrame, PutIp, PutTcp, PutTlsHead, PutCerts, Be2, Be4;
    var full := PutFrame(f);
    FrameParts(f);
    IpFields(full, f);
    TcpFields(full, f, f.TcpOffset());
    TlsFields(full, f, f.TlsOffset());
    CertsConsAt(full, f.ListOffset(), f.certs);
  }

  lemma IpLeadsToTcp(p: Bytes, full: Bytes, f: Frame)
    requires HeadersLaid(full, f) && Arrived(p, full) && 59 <= |p|
    ensures Outcome(p) == OutcomeTcp(p, f.TcpOffset())
  {
  }

  lemma TcpLeadsToTls(p: Bytes, tcp: nat, tls: nat)
    requires 34 <= tcp && 59 <= |p|
    requires tcp + 20 <= |p| ==> HighNibble(p[tcp + 12]) >= 5 && tcp + HighNibble(p[tcp + 12]) * 4 == tls
    ensures if |p| < tcp + 20 then OutcomeTcp(p, tcp).Err?
            else OutcomeTcp(p, tcp) == OutcomeTls(p, tcp, tls)
  {
  }

  lemma TlsLeadsToList(p: Bytes, full: Bytes, f: Frame)
    requires HeadersLaid(full, f) && Arrived(p, full) && f.TcpOffset() + 20 <= |p|
    ensures var t, l := f.TcpOffset(), f.TlsOffset();
            if |p| <= f.LeafOffset() then OutcomeTls(p, t, l).Err?
            else OutcomeTls(p, t, l) == Ok(Observed(p, t, l))
  {
    var l := f.TlsOffset();
    if l + 15 <= |p| {
      assert p[l] == full[l] && p[l + 5] == full[l + 5];
      assert Be2(p, l + 3) == Be2(full, l + 3) && Be3(p, l + 12) == Be3(full, l + 12);
    }
  }

  /** Such headers lead the parser to the certificate list, if it arrives. */
  lemma HeadersLeadToList(p: Bytes, full: Bytes, f: Frame)
    requires HeadersLaid(full, f) && Arrived(p, full)
    ensures if |p| <= f.LeafOffset() then Outcome(p).Err?
            else Outcome(p) == Ok(Observed(p, f.TcpOffset(), f.TlsOffset()))
  {
    if 59 <= |p| {
      IpLeadsToTcp(p, full, f);
      assert f.TcpOffset() + 12 < |p| ==> p[f.TcpOffset() + 12] == full[f.TcpOffset() + 12];
      TcpLeadsToTls(p, f.TcpOffset(), f.TlsOffset());
      if f.TcpOffset() + 20 <= |p| {
        TlsLeadsToList(p, full, f);
      }
    }
  }

  lemma HeaderFieldsObserved(p: Bytes, full: Bytes, f: Frame)
    requires HeadersLaid(full, f) && Arrived(p, full) && f.LeafOffset() < |p|
    ensures var t, l := f.TcpOffset(), f.TlsOffset();
            && Be4(p, 26) == f.srcIp && Be4(p, 30) == f.dstIp
            && Be2(p, t) == f.srcPort && Be2(p, t + 2) == f.dstPort && Be2(p, l + 1) == f.tlsVersion
            && Be3(p, l + 9) == ListLength(f.certs)
  {
  }

  lemma LeafPrefixObserved(p: Bytes, full: Bytes, f: Frame)
    requires f.Valid() && Arrived(p, full) && f.LeafOffset() < |p|
    requires At(full, f.ListOffset(), PutCerts(f.certs))
    ensures CertPrefix(p, f.TlsOffset() + 12) == Pad(LeafWithin(f, |p|), 32)
    ensures Be3(p, f.TlsOffset() + 12) == |f.certs[0]|
  {
    CertsConsAt(full, f.ListOffset(), f.certs);
    ArrivedBe3(p, full, f.ListOffset());
    PrefixOfCert(p, full, f.ListOffset(), f.certs);
  }

  lemma LeafDataObserved(p: Bytes, full: Bytes, f: Frame)
    requires f.Valid() && Arrived(p, full) && f.LeafOffset() < |p|
    requires At(full, f.ListOffset(), PutCerts(f.certs))
    ensures |LeafData(p, f.TlsOffset())| == Min(|LeafWithin(f, |p|)|, MAX_CERT_DATA)
    ensures Pad(LeafData(p, f.TlsOffset()), MAX_CERT_DATA) == Pad(LeafWithin(f, |p|), MAX_CERT_DATA)
  {
    CertsConsAt(full, f.ListOffset(), f.certs);
    ArrivedBe3(p, full, f.ListOffset());
    CutOfPart(p, full, f.LeafOffset(), f.certs[0], MAX_CERT_DATA);
  }

  lemma DepthObserved(p: Bytes, full: Bytes, f: Frame)
    requires f.Valid() && Arrived(p, full) && f.LeafOffset() < |p|
    requires At(full, f.ListOffset(), PutCerts(f.certs))
    ensures ChainDepth(p, f.TlsOffset() + 12, ListLength(f.certs)) == DepthWithin(f, |p|)
  {
    EntriesOfList(p, full, f.ListOffset(), f.certs, MAX_CHAIN);
    assert HeadersWithin(f.certs, |p| - f.ListOffset()) >= 1;
  }

  lemma IssuerObserved(p: Bytes, full: Bytes, f: Frame)
    requires f.Valid() && Arrived(p, full) && f.LeafOffset() < |p|
    requires At(full, f.ListOffset(), PutCerts(f.certs))
    ensures IssuerPrefix(p, DepthWithin(f, |p|), f.TlsOffset() + 15 + |f.certs[0]|) == Pad(IssuerWithin(f, |p|), 32)
  {
    hide CertPrefix;
    assert Pad([], 32) == ZeroFingerprint();
    var second := f.LeafOffset() + |f.certs[0]|;
    CertsConsAt(full, f.ListOffset(), f.certs);
    if |f.certs| >= 2 {
      var rest := f.certs[1..];
      PrefixOfCert(p, full, second, rest);
      assert HeadersWithin(f.certs, |p| - f.ListOffset()) == 1 + HeadersWithin(rest, |p| - second);
      if |p| < second + 3 {
        assert HeadersWithin(rest, |p| - second) == 0;
        assert IssuerWithin(f, |p|) == [];
      } else {
        assert HeadersWithin(rest, |p| - second) >= 1;
      }
    } else {
      assert HeadersWithin(f.certs, |p| - f.ListOffset()) == 1;
    }
  }

  /** The header fields of f, as read from p with its TCP and TLS parts at the given offsets. */
  ghost predicate HeadersSeen(f: Frame, p: Bytes, tcp: nat, tls: nat) {
    && 34 <= tcp && tcp + 20 <= tls && tls + 15 < |p|
    && Be4(p, 26) == f.srcIp && Be4(p, 30) == f.dstIp
    && Be2(p, tcp) == f.srcPort && Be2(p, tcp + 2) == f.dstPort && Be2(p, tls + 1) == f.tlsVersion
    && Be3(p, tls + 9) == ListLength(f.certs)
  }

  ghost predicate LeafSeen(f: Frame, p: Bytes, tls: nat) {
    && |f.certs| >= 1 && tls + 15 < |p|
    && Be3(p, tls + 12) == |f.certs[0]|
    && CertPrefix(p, tls + 12) == Pad(LeafWithin(f, |p|), 32)
    && |LeafData(p, tls)| == Min(|LeafWithin(f, |p|)|, MAX_CERT_DATA)
    && Pad(LeafData(p, tls), MAX_CERT_DATA) == Pad(LeafWithin(f, |p|), MAX_CERT_DATA)
  }

  ghost predicate ChainSeen(f: Frame, p: Bytes, tls: nat) {
    && |f.certs| >= 1
    && ChainDepth(p, tls + 12, ListLength(f.certs)) == DepthWithin(f, |p|)
    && IssuerPrefix(p, DepthWithin(f, |p|), tls + 15 + |f.certs[0]|) == Pad(IssuerWithin(f, |p|), 32)
  }

  lemma HeadersOfFrame(f: Frame, p: Bytes)
    requires f.Valid() && Arrived(p, PutFrame(f)) && f.LeafOffset() < |p|
    ensures HeadersSeen(f, p, f.TcpOffset(), f.TlsOffset())
  {
    FrameHeadersLaid(f);
    HeaderFieldsObserved(p, PutFrame(f), f);
  }

  lemma LeafOfFrame(f: Frame, p: Bytes)
    requires f.Valid() && Arrived(p, PutFrame(f)) && f.LeafOffset() < |p|
    ensures LeafSeen(f, p, f.TlsOffset())
  {
    FrameHeadersLaid(f);
    LeafPrefixObserved(p, PutFrame(f), f);
    LeafDataObserved(p, PutFrame(f), f);
  }

  lemma ChainOfFrame(f: Frame, p: Bytes)
    requires f.Valid() && Arrived(p, PutFrame(f)) && f.LeafOffset() < |p|
    ensures ChainSeen(f, p, f.TlsOffset())
  {
    FrameHeadersLaid(f);
    DepthObserved(p, PutFrame(f), f);
    IssuerObserved(p, PutFrame(f), f);
  }

  lemma SeenMakesExpected(f: Frame, p: Bytes, tcp: nat, tls: nat)
    requires HeadersSeen(f, p, tcp, tls) && LeafSeen(f, p, tls) && ChainSeen(f, p, tls)
    ensures Observed(p, tcp, tls) == Expected(f, |p|)
  {
  }

  /** Main result, round trip: write any certificates into a frame and let any first part of it
      arrive. If not one byte of the leaf is there, the parser gives up; otherwise it recovers
      addresses, ports and version, the number of entries that arrived up to 10, and of the leaf
      and the second certificate the bytes that arrived, cut or zero-padded to size. */
  lemma RoundTripOfAnyPrefix(f: Frame, p: Bytes)
    requires f.Valid() && Arrived(p, PutFrame(f))
    ensures if |p| <= f.LeafOffset() then Outcome(p).Err? else Outcome(p) == Ok(Expected(f, |p|))
  {
    FrameHeadersLaid(f);
    HeadersLeadToList(p, PutFrame(f), f);
    if |p| > f.LeafOffset() {
      HeadersOfFrame(f, p);
      LeafOfFrame(f, p);
      ChainOfFrame(f, p);
      SeenMakesExpected(f, p, f.TcpOffset(), f.TlsOffset());
    }
  }

  lemma {:induction false} AllHeadersWithin(certs: seq<Bytes>, room: int)
    requires room >= ListLength(certs)
    ensures HeadersWithin(certs, room) == |certs|
  {
    if certs == [] {
    } else {
      AllHeadersWithin(certs[1..], room - 3 - |certs[0]|);
    }
  }

  lemma ClipAll(b: Bytes, room: int)
    requires room >= |b|
    ensures Clip(b, room) == b
  {
  }

  /** What is expected of a whole frame: the chain's length up to 10, and prefixes of the
      certificates themselves. */
  lemma ExpectedOfWhole(f: Frame)
    requires f.Valid()
    ensures var leaf := f.certs[0];
            Expected(f, |PutFrame(f)|) == Observation(
              f.srcIp, f.dstIp, f.srcPort, f.dstPort, f.tlsVersion,
              Min(|leaf|, MAX_CERT_DATA), Min(MAX_CHAIN, |f.certs|),
              Pad(leaf, 32), Pad(leaf, MAX_CERT_DATA),
              if |f.certs| >= 2 then Pad(f.certs[1], 32) else ZeroFingerprint())
  {
    var cut := |PutFrame(f)|;
    AllHeadersWithin(f.certs, cut - f.ListOffset());
    ClipAll(f.certs[0], cut - f.LeafOffset());
    if |f.certs| >= 2 {
      assert ListLength(f.certs) == 3 + |f.certs[0]| + ListLength(f.certs[1..]);
      assert ListLength(f.certs[1..]) >= 3 + |f.certs[1]|;
      ClipAll(f.certs[1], cut - (f.LeafOffset() + |f.certs[0]| + 3));
    }
  }

  /** The whole frame is read back whole. */
  lemma RoundTrip(f: Frame)
    requires f.Valid()
    ensures var leaf := f.certs[0];
            Outcome(PutFrame(f)) == Ok(Observation(
              f.srcIp, f.dstIp, f.srcPort, f.dstPort, f.tlsVersion,
              Min(|leaf|, MAX_CERT_DATA), Min(MAX_CHAIN, |f.certs|),
              Pad(leaf, 32), Pad(leaf, MAX_CERT_DATA),
              if |f.certs| >= 2 then Pad(f.certs[1], 32) else ZeroFingerprint()))
  {
    RoundTripOfAnyPrefix(f, PutFrame(f));
    ExpectedOfWhole(f);
  }

  // --- The parser's loops -----------------------------------------------------------------

  /** Walk the certificate entries, at most ten. */
  method CountChainDepth(p: Bytes, start: nat, total: nat) returns (depth: nat)
    ensures depth == ChainDepth(p, start, total)
  {
    var offset: nat, end, iter := start, start + total, 0;
    depth := 0;
    while iter < MAX_CHAIN
      invariant iter <= MAX_CHAIN && depth == iter
      invariant depth + Entries(p, offset, end, MAX_CHAIN - iter) == Entries(p, start, end, MAX_CHAIN)
    {
      if offset + 3 > |p| || offset + 3 > end {
        break;
      }
      var b0, b1, b2 := LoadU8(p, offset), LoadU8(p, offset + 1), LoadU8(p, offset + 2);
      if b0.ReadFailed? || b1.ReadFailed? || b2.ReadFailed? {
        break;
      }
      var certLen := b0.value as nat * 65536 + b1.value as nat * 256 + b2.value as nat;
      if certLen == 0 {
        break;
      }
      depth, offset, iter := depth + 1, offset + 3 + certLen, iter + 1;
    }
    if depth == 0 {
      depth := 1;
    }
  }

  /** The bytes of dest after copying as much of p from o as arrived, up to len and its size. */
  ghost predicate Copied(p: Bytes, o: nat, len: nat, before: Bytes, after: Bytes) {
    && |after| == |before|
    && forall k :: 0 <= k < |after| ==> after[k] == if k < len && o + k < |p| then p[o + k] else before[k]
  }

  lemma CopiedIsPadded(p: Bytes, o: nat, len: nat, zeros: Bytes, after: Bytes)
    requires Copied(p, o, len, zeros, after) && zeros == Pad([], |zeros|)
    ensures after == Pad(Cut(p, o, len), |after|)
  {
  }

  /** Copy in chunks of 64 bytes, stopping at the first byte that cannot be read. */
  method CopyCertData(p: Bytes, offset: nat, len: nat, dest: array<byte>)
    requires dest.Length == MAX_CERT_DATA
    modifies dest
    ensures Copied(p, offset, len, old(dest[..]), dest[..])
  {
    var i := 0;
    while i < len && i < MAX_CERT_DATA
      invariant 0 <= i <= MAX_CERT_DATA && i <= len && (i > 0 ==> offset + i <= |p|)
      invariant Copied(p, offset, i, old(dest[..]), dest[..])
    {
      var chunkEnd :=
        if i + 64 < len && i + 64 < MAX_CERT_DATA then i + 64
        else if len < MAX_CERT_DATA then len
        else MAX_CERT_DATA;
      while i < chunkEnd
        invariant 0 <= i <= chunkEnd && (i > 0 ==> offset + i <= |p|)
        invariant Copied(p, offset, i, old(dest[..]), dest[..])
      {
        var b := LoadU8(p, offset + i);
        if b.ReadFailed? {
          return;
        }
        dest[i] := b.value;
        i := i + 1;
      }
    }
  }

  /** Fill a 32-byte array with up to len bytes of the packet; what cannot be read stays zero. */
  method ReadPseudoFingerprint(p: Bytes, offset: nat, len: nat) returns (fp: Fingerprint)
    ensures fp == Pad(Cut(p, offset, Min(len, 32)), 32)
  {
    var bytes := new byte[32](_ => 0);
    ghost var zeros := bytes[..];
    assert zeros == Pad([], 32);
    var i := 0;
    while i < len && i < 32
      invariant 0 <= i <= 32 && (i > 0 ==> i <= len)
      invariant Copied(p, offset, i, zeros, bytes[..])
    {
      var b := LoadU8(p, offset + i);
      if b.Loaded? {
        bytes[i] := b.value;
      }
      i := i + 1;
    }
    CopiedIsPadded(p, offset, i, zeros, bytes[..]);
    fp := bytes[..];
  }

  /** First bytes of the certificate after the leaf; zeros if its length is missing or zero. */
  method ExtractIssuerPseudoFingerprint(p: Bytes, firstCertOffset: nat, firstCertLen: nat) returns (fp: Fingerprint)
    ensures fp == CertPrefix(p, firstCertOffset + 3 + firstCertLen)
  {
    var second := firstCertOffset + 3 + firstCertLen;
    fp := ZeroFingerprint();
    if second + 3 > |p| {
      return;
    }
    var b0, b1, b2 := LoadU8(p, second), LoadU8(p, second + 1), LoadU8(p, second + 2);
    if b0.ReadFailed? || b1.ReadFailed? || b2.ReadFailed? {
      return;
    }
    var secondLen := b0.value as nat * 65536 + b1.value as nat * 256 + b2.value as nat;
    if secondLen == 0 {
      assert Pad(Cut(p, second + 3, 0), 32) == ZeroFingerprint();
      return;
    }
    var fpLen := if secondLen < 32 then secondLen else 32;
    var bytes := new byte[32](_ => 0);
    ghost var zeros := bytes[..];
    assert zeros == Pad([], 32);
    var i := 0;
    while i < fpLen && i < 32
      invariant 0 <= i <= fpLen && (i > 0 ==> second + 3 + i <= |p|)
      invariant Copied(p, second + 3, i, zeros, bytes[..])
    {
      if second + 3 + i >= |p| {
        break;
      }
      var b := LoadU8(p, second + 3 + i);
      if b.ReadFailed? {
        break;
      }
      bytes[i] := b.value;
      i := i + 1;
    }
    CopiedIsPadded(p, second + 3, i, zeros, bytes[..]);
    fp := bytes[..];
  }

  // --- The parser as an object ------------------------------------------------------------

  /** The record pushed to userspace. */
  datatype TlsCertEvent = TlsCertEvent(
    timestampNs: nat,
    srcIp: nat, dstIp: nat,
    srcPort: nat, dstPort: nat,
    ipVersion: nat,
    tlsVersion: nat,
    sniLen: nat,
    fingerprint: Fingerprint,
    certLen: nat,
    certData: Bytes,
    chainDepth: nat,
    issuerFingerprint: Fingerprint,
    isNew: byte)

  function EventOf(o: Observation, now: nat, isNew: byte): TlsCertEvent {
    TlsCertEvent(now, o.srcIp, o.dstIp, o.srcPort, o.dstPort, 4, o.tlsVersion, 0, o.fingerprint,
                 o.copyLen, o.certData, o.chainDepth, o.issuer, isNew)
  }

  /** What userspace receives of a whole frame, field by field: every field says what its sender
      wrote, the certificate length is the length copied, and addresses are IPv4. */
  lemma EventTellsTheFrame(f: Frame, o: Observation, now: nat, isNew: byte)
    requires f.Valid() && Outcome(PutFrame(f)) == Ok(o)
    ensures var e, leaf := EventOf(o, now, isNew), f.certs[0];
            && e.timestampNs == now && e.isNew == isNew
            && e.srcIp == f.srcIp && e.dstIp == f.dstIp && e.srcPort == f.srcPort && e.dstPort == f.dstPort
            && e.ipVersion == 4 && e.tlsVersion == f.tlsVersion && e.sniLen == 0
            && e.certLen == Min(|leaf|, 4096) && e.certData == Pad(leaf, 4096)
            && e.fingerprint == Pad(leaf, 32)
            && e.chainDepth == Min(10, |f.certs|)
            && e.issuerFingerprint == if |f.certs| >= 2 then Pad(f.certs[1], 32) else ZeroFingerprint()
  {
    hide Outcome, PutFrame, Pad;
    RoundTrip(f);
  }

  /** The drop counters after a packet was given up. */
  function Dropped(drops: seq<nat>, stop: Stop): seq<nat>
    requires |drops| == DROP_COUNTER_ENTRIES
  {
    [drops[0],
     drops[1] + if stop.malformed then 1 else 0,
     drops[2] + if stop.handshake then 1 else 0,
     drops[3]]
  }

  ghost predicate Stopped(before: seq<nat>, after: seq<nat>, stop: Stop, code: nat) {
    |before| == DROP_COUNTER_ENTRIES && after == Dropped(before, stop) && code == stop.code
  }

  /** The fields of the headers, and where TCP and TLS start. */
  datatype Connection = Connection(srcIp: nat, dstIp: nat, srcPort: nat, dstPort: nat, tcp: nat, tls: nat)

  ghost predicate Connected(p: Bytes, c: Connection) {
    && 34 <= c.tcp && c.tcp + 20 <= |p| && c.tcp + 20 <= c.tls
    && c.srcIp == Be4(p, 26) && c.dstIp == Be4(p, 30)
    && c.srcPort == Be2(p, c.tcp) && c.dstPort == Be2(p, c.tcp + 2)
  }

  /** The lengths in a Certificate message, and how much of the leaf can be copied. */
  datatype Message = Message(tlsVersion: nat, totalLen: nat, derLen: nat, copyLen: nat)

  ghost predicate Carried(p: Bytes, tls: nat, m: Message) {
    && tls + 15 < |p|
    && m.tlsVersion == Be2(p, tls + 1) && m.totalLen == Be3(p, tls + 9)
    && m.derLen == Be3(p, tls + 12) && 1 <= m.derLen
    && m.copyLen == |LeafData(p, tls)|
  }

  /** What the packet's certificate does to the event ring: the event, if there is room. */
  function Pushed(events: seq<TlsCertEvent>, o: Observation, now: nat, isNew: bool, room: bool): seq<TlsCertEvent> {
    if room then events + [EventOf(o, now, if isNew then 1 else 0)] else events
  }

  /** The kernel maps have taken in one observation of fp. */
  twostate predicate Counted(maps: K.KernelMaps, cpu: nat, fp: Fingerprint, now: nat)
    requires old(maps.Valid()) && cpu < maps.cpus
    reads maps
  {
    && maps.seen == K.SeenAfter(maps.capacity, old(maps.seen), fp, now)
    && maps.stats == K.StatsAfter(maps.capacity, maps.cpus, old(maps.seen), old(maps.stats), fp, cpu)
  }

  lemma LeafPrefixOfCopy(p: Bytes, tls: nat, copyLen: nat)
    requires tls + 15 < |p| && copyLen == |LeafData(p, tls)|
    ensures Cut(p, tls + 15, Min(Min(copyLen, 32), 32)) == Cut(p, tls + 15, Min(Be3(p, tls + 12), 32))
  {
  }

  /** The certificate data field: the leaf as far as it arrived and fits, then zeros. */
  method ReadLeaf(p: Bytes, tls: nat, copyLen: nat) returns (data: Bytes)
    requires tls + 15 < |p| && copyLen == |LeafData(p, tls)|
    ensures data == Pad(LeafData(p, tls), MAX_CERT_DATA)
  {
    var certData := new byte[MAX_CERT_DATA](_ => 0);
    ghost var zeros := certData[..];
    assert zeros == Pad([], |zeros|);
    CopyCertData(p, tls + 15, copyLen, certData);
    data := certData[..];
    assert LeafData(p, tls) == Cut(p, tls + 15, copyLen);
    CopiedIsPadded(p, tls + 15, copyLen, zeros, data);
  }

  /** o, field by field, is what the headers c and the message m of packet p say. */
  ghost predicate Describes(o: Observation, p: Bytes, c: Connection, m: Message) {
    && c.tls + 15 < |p|
    && o.srcIp == c.srcIp && o.dstIp == c.dstIp && o.srcPort == c.srcPort && o.dstPort == c.dstPort
    && o.tlsVersion == m.tlsVersion && o.copyLen == m.copyLen
    && o.chainDepth == ChainDepth(p, c.tls + 12, m.totalLen)
    && o.fingerprint == CertPrefix(p, c.tls + 12)
    && o.certData == Pad(LeafData(p, c.tls), MAX_CERT_DATA)
    && o.issuer == IssuerPrefix(p, o.chainDepth, c.tls + 15 + m.derLen)
  }

  lemma ObservedDescribes(p: Bytes, c: Connection, m: Message)
    requires Connected(p, c) && Carried(p, c.tls, m)
    ensures Describes(Observed(p, c.tcp, c.tls), p, c, m)
  {
    hide CertPrefix, IssuerPrefix, ChainDepth, Pad, Cut, Be2, Be3, Be4;
  }

  /** Everything the event holds, put together from the packet. */
  method BuildEvent(p: Bytes, c: Connection, m: Message, now: nat, isNew: byte, fp: Fingerprint, ghost o: Observation)
    returns (e: TlsCertEvent)
    requires Carried(p, c.tls, m) && Describes(o, p, c, m) && fp == o.fingerprint
    ensures e == EventOf(o, now, isNew)
  {
    hide Pad, Cut, LeafData, ChainDepth, Be2, Be4;
    var depth := CountChainDepth(p, c.tls + 12, m.totalLen);
    var certData := ReadLeaf(p, c.tls, m.copyLen);
    var issuer := ZeroFingerprint();
    if depth > 1 {
      issuer := ExtractIssuerPseudoFingerprint(p, c.tls + 12, m.derLen);
    }
    assert depth == o.chainDepth && issuer == o.issuer;
    e := TlsCertEvent(now, c.srcIp, c.dstIp, c.srcPort, c.dstPort, 4, m.tlsVersion, 0, fp,
                      m.copyLen, certData, depth, issuer, isNew);
  }

  class KernelCollector {
    const maps: K.KernelMaps
    const drops: array<nat>
    var events: seq<TlsCertEvent>

    ghost predicate Valid()
      reads this, maps, drops
    {
      maps.Valid() && drops.Length == DROP_COUNTER_ENTRIES
    }

    constructor (maps: K.KernelMaps)
      requires maps.Valid()
      ensures Valid() && this.maps == maps && fresh(drops) && events == []
    {
      this.maps := maps;
      drops := new nat[DROP_COUNTER_ENTRIES](_ => 0);
      events := [];
    }

    method IncrementDropCounter(index: nat)
      requires index < drops.Length
      modifies drops
      ensures drops[..] == old(drops[..])[index := old(drops[index]) + 1]
    {
      drops[index] := drops[index] + 1;
    }

    /** Ethernet and IPv4 headers: the addresses, and where TCP starts. */
    method ParseIp(p: Bytes) returns (r: Result<(nat, nat, nat), nat>)
      requires Valid()
      modifies drops
      ensures r.Err? ==> Outcome(p).Err? && Stopped(old(drops[..]), drops[..], Outcome(p).error, r.error)
      ensures r.Ok? ==>
                var (src, dst, tcp) := r.value;
                && drops[..] == old(drops[..])
                && 59 <= |p| && 34 <= tcp && src == Be4(p, 26) && dst == Be4(p, 30)
                && Outcome(p) == OutcomeTcp(p, tcp)
    {
      if |p| < 59 {
        return Err(ERR_PKT_TOO_SHORT);
      }
      var ethProto :- LoadU16(p, 12);
      if ethProto != 0x0800 {
        return Err(ERR_NOT_IPV4);
      }
      var versionIhl :- LoadU8(p, 14);
      var ihl := LowNibble(versionIhl) * 4;
      if ihl < 20 || ihl > 60 {
        IncrementDropCounter(DROP_IDX_MALFORMED);
        return Err(ERR_NOT_IPV4);
      }
      var protocol :- LoadU8(p, 23);
      if protocol != 6 {
        return Err(ERR_NOT_TCP);
      }
      var srcIp :- LoadU32(p, 26);
      var dstIp :- LoadU32(p, 30);
      return Ok((srcIp, dstIp, 14 + ihl));
    }

    /** The TCP header: the ports, and where the TLS record starts. */
    method ParseTcp(p: Bytes, tcp: nat) returns (r: Result<(nat, nat, nat), nat>)
      requires Valid() && 59 <= |p| && 34 <= tcp
      modifies drops
      ensures r.Err? ==> OutcomeTcp(p, tcp).Err?
                         && Stopped(old(drops[..]), drops[..], OutcomeTcp(p, tcp).error, r.error)
      ensures r.Ok? ==>
                var (srcPort, dstPort, tls) := r.value;
                && drops[..] == old(drops[..])
                && tcp + 20 <= |p| && tcp + 20 <= tls && srcPort == Be2(p, tcp) && dstPort == Be2(p, tcp + 2)
                && OutcomeTcp(p, tcp) == OutcomeTls(p, tcp, tls)
    {
      if |p| < tcp + 20 {
        return Err(ERR_PKT_TOO_SHORT);
      }
      var srcPort :- LoadU16(p, tcp);
      var dstPort :- LoadU16(p, tcp + 2);
      var dataOffset :- LoadU8(p, tcp + 12);
      var tcpLen := HighNibble(dataOffset) * 4;
      if tcpLen < 20 || tcpLen > 60 {
        IncrementDropCounter(DROP_IDX_MALFORMED);
        return Err(ERR_NOT_TCP);
      }
      return Ok((srcPort, dstPort, tcp + tcpLen));
    }

    /** TLS record, handshake header, and the lengths in front of the first certificate. */
    method ParseCertificate(p: Bytes, ghost tcp: nat, tls: nat) returns (r: Result<Message, nat>)
      requires Valid() && 34 <= tcp && tcp + 20 <= |p| && tcp + 20 <= tls
      modifies drops
      ensures r.Err? ==> OutcomeTls(p, tcp, tls).Err?
                         && Stopped(old(drops[..]), drops[..], OutcomeTls(p, tcp, tls).error, r.error)
      ensures r.Ok? ==> drops[..] == Dropped(old(drops[..]), Stop(0, false, true)) && Carried(p, tls, r.value)
      ensures r.Ok? ==> OutcomeTls(p, tcp, tls) == Ok(Observed(p, tcp, tls))
    {
      hide Observed, ChainDepth, Pad, CertPrefix, IssuerPrefix;
      if |p| < tls + 5 {
        return Err(ERR_NOT_TLS);
      }
      var contentType :- LoadU8(p, tls);
      if contentType != 22 {
        return Err(ERR_NOT_TLS);
      }
      var tlsVersion :- LoadU16(p, tls + 1);
      var recordLen :- LoadU16(p, tls + 3);
      if recordLen == 0 || recordLen > 16384 {
        IncrementDropCounter(DROP_IDX_MALFORMED);
        return Err(ERR_NOT_TLS);
      }
      IncrementDropCounter(DROP_IDX_TOTAL);

      var hs := tls + 5;
      if |p| < hs + 4 {
        return Err(ERR_NOT_HANDSHAKE);
      }
      var hsType :- LoadU8(p, hs);
      if hsType == 2 {
        return Err(ERR_NOT_HANDSHAKE);
      }
      if hsType != 11 {
        return Err(ERR_NOT_HANDSHAKE);
      }
      var certMsg := hs + 4;
      if |p| < certMsg + 3 {
        return Err(ERR_NOT_HANDSHAKE);
      }
      var t0 :- LoadU8(p, certMsg);
      var t1 :- LoadU8(p, certMsg + 1);
      var t2 :- LoadU8(p, certMsg + 2);
      var totalLen := t0 as nat * 65536 + t1 as nat * 256 + t2 as nat;
      var firstCert := certMsg + 3;
      if |p| < firstCert + 3 {
        return Err(ERR_NOT_HANDSHAKE);
      }
      var l0 :- LoadU8(p, firstCert);
      var l1 :- LoadU8(p, firstCert + 1);
      var l2 :- LoadU8(p, firstCert + 2);
      var derLen := l0 as nat * 65536 + l1 as nat * 256 + l2 as nat;
      if derLen == 0 || derLen > 65535 {
        IncrementDropCounter(DROP_IDX_MALFORMED);
        return Err(ERR_NOT_HANDSHAKE);
      }
      var data := firstCert + 3;
      var available := if |p| > data then |p| - data else 0;
      var copyLen := if derLen > MAX_CERT_DATA then MAX_CERT_DATA else derLen;
      copyLen := if copyLen > available then available else copyLen;
      if copyLen == 0 {
        return Err(ERR_NOT_HANDSHAKE);
      }
      return Ok(Message(tlsVersion, totalLen, derLen, copyLen));
    }

    /** Ethernet, IPv4 and TCP headers. */
    method ParseHeaders(p: Bytes) returns (r: Result<Connection, nat>)
      requires Valid()
      modifies drops
      ensures r.Err? ==> Outcome(p).Err? && Stopped(old(drops[..]), drops[..], Outcome(p).error, r.error)
      ensures r.Ok? ==> drops[..] == old(drops[..]) && Connected(p, r.value)
      ensures r.Ok? ==> Outcome(p) == OutcomeTls(p, r.value.tcp, r.value.tls)
    {
      var ip :- ParseIp(p);
      var tcp :- ParseTcp(p, ip.2);
      return Ok(Connection(ip.0, ip.1, tcp.0, tcp.1, ip.2, tcp.2));
    }

    /** All headers up to the leaf certificate. */
    method LocateCertificate(p: Bytes) returns (r: Result<(Connection, Message), nat>)
      requires Valid()
      modifies drops
      ensures r.Err? ==> Outcome(p).Err? && Stopped(old(drops[..]), drops[..], Outcome(p).error, r.error)
      ensures r.Ok? ==>
                && drops[..] == Dropped(old(drops[..]), Stop(0, false, true))
                && Carried(p, r.value.0.tls, r.value.1)
                && Outcome(p).Ok? && Describes(Outcome(p).value, p, r.value.0, r.value.1)
    {
      var c :- ParseHeaders(p);
      var m :- ParseCertificate(p, c.tcp, c.tls);
      ObservedDescribes(p, c, m);
      return Ok((c, m));
    }

    /** Look the certificate up and push the event if the ring buffer has room. */
    method PushEvent(p: Bytes, c: Connection, m: Message, cpu: nat, now: nat, room: bool, ghost o: Observation)
      returns (r: Result<(), nat>)
      requires Valid() && cpu < maps.cpus && Carried(p, c.tls, m) && Describes(o, p, c, m)
      modifies this, drops, maps
      ensures Valid()
      ensures Counted(maps, cpu, o.fingerprint, now)
      ensures events == Pushed(old(events), o, now, o.fingerprint !in old(maps.seen), room)
      ensures r == if room then Ok(()) else Err(ERR_RINGBUF_FULL)
      ensures drops[..] == if room then old(drops[..]) else old(drops[..])[0 := old(drops[0]) + 1]
    {
      hide Pad, Cut, ChainDepth, IssuerPrefix, EventOf, K.SeenAfter, K.StatsAfter;
      var fp := ReadPseudoFingerprint(p, c.tls + 15, if m.copyLen < 32 then m.copyLen else 32);
      LeafPrefixOfCopy(p, c.tls, m.copyLen);
      assert fp == o.fingerprint;
      var isNew := maps.IsNewCert(cpu, fp, now);
      if room {
        var event := BuildEvent(p, c, m, now, isNew, fp, o);
        events := events + [event];
        r := Ok(());
      } else {
        IncrementDropCounter(DROP_IDX_RING_FULL);
        r := Err(ERR_RINGBUF_FULL);
      }
    }

    /** Parse one packet and, if it carries a certificate, push an event. `room` says whether the
        ring buffer can take one. */
    method ParseTlsHandshake(p: Bytes, cpu: nat, now: nat, room: bool) returns (r: Result<(), nat>)
      requires Valid() && cpu < maps.cpus
      modifies this, drops, maps
      ensures Valid()
      ensures Outcome(p).Err? ==>
                && r.Err? && Stopped(old(drops[..]), drops[..], Outcome(p).error, r.error)
                && events == old(events) && maps.seen == old(maps.seen) && maps.stats == old(maps.stats)
      ensures Outcome(p).Ok? ==>
                var o := Outcome(p).value;
                && Counted(maps, cpu, o.fingerprint, now)
                && events == Pushed(old(events), o, now, o.fingerprint !in old(maps.seen), room)
                && r == (if room then Ok(()) else Err(ERR_RINGBUF_FULL))
                && drops[..] == Dropped(old(drops[..]), Stop(0, false, true))
                                [0 := old(drops[0]) + if room then 0 else 1]
    {
      hide Outcome, Describes, Carried, EventOf, K.SeenAfter, K.StatsAfter;
      var found :- LocateCertificate(p);
      r := PushEvent(p, found.0, found.1, cpu, now, room, Outcome(p).value);
    }
  }
}

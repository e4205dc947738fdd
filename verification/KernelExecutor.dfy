/** The executor's kernel programs: a second, shorter parser for the same packets, and the
    decisions to drop or pass a packet by its leaf certificate. */
module KernelExecutor {
  import opened Common
  import opened Wire
  import opened ActionEntry
  import C = Collector

  const TC_ACT_OK := 0
  const TC_ACT_SHOT := 2

  const ERR_PKT_TOO_SHORT := 1
  const ERR_NOT_IPV4 := 2
  const ERR_NOT_TCP := 3
  const ERR_NOT_TLS := 4
  const ERR_NOT_CERTIFICATE := 5

  // --- Specification ----------------------------------------------------------------------

  /** The leaf's pseudo-fingerprint, or why there is none. */
  function Extracted(p: Bytes): Result<Fingerprint, nat> {
    if |p| < 70 then Err(ERR_PKT_TOO_SHORT)
    else if Be2(p, 12) != 0x0800 then Err(ERR_NOT_IPV4)
    else if LowNibble(p[14]) < 5 then Err(ERR_NOT_IPV4)
    else if p[23] != 6 then Err(ERR_NOT_TCP)
    else ExtractedTcp(p, 14 + LowNibble(p[14]) * 4)
  }

  function ExtractedTcp(p: Bytes, tcp: nat): Result<Fingerprint, nat> {
    if |p| < tcp + 20 then Err(ERR_PKT_TOO_SHORT)
    else if HighNibble(p[tcp + 12]) < 5 then Err(ERR_NOT_TCP)
    else ExtractedTls(p, tcp + HighNibble(p[tcp + 12]) * 4)
  }

  function ExtractedTls(p: Bytes, tls: nat): Result<Fingerprint, nat> {
    if |p| < tls + 5 || p[tls] != 22 then Err(ERR_NOT_TLS)
    else if Be2(p, tls + 3) == 0 || Be2(p, tls + 3) > 16384 then Err(ERR_NOT_TLS)
    else if |p| < tls + 15 || p[tls + 5] != 11 then Err(ERR_NOT_CERTIFICATE)
    else if Be3(p, tls + 12) == 0 || |p| == tls + 15 then Err(ERR_NOT_CERTIFICATE)
    else Ok(C.CertPrefix(p, tls + 12))
  }

  /** Length of the leaf as its packet states it; zero if the packet does not get that far. */
  function LeafLength(p: Bytes): nat {
    if |p| <= 14 || |p| <= TcpOffset(p) + 12 || |p| < TlsOffset(p) + 15 then 0 else Be3(p, TlsOffset(p) + 12)
  }

  function TcpOffset(p: Bytes): nat
    requires 14 < |p|
  {
    14 + LowNibble(p[14]) * 4
  }

  function TlsOffset(p: Bytes): nat
    requires 14 < |p| && TcpOffset(p) + 12 < |p|
  {
    TcpOffset(p) + HighNibble(p[TcpOffset(p) + 12]) * 4
  }

  // --- The two parsers agree --------------------------------------------------------------

  lemma TcpParsersAgree(p: Bytes, tcp: nat)
    requires 34 <= tcp && 59 <= |p|
    ensures C.OutcomeTcp(p, tcp).Ok? <==>
            ExtractedTcp(p, tcp).Ok? && tcp + 12 < |p| &&
            var tls := tcp + HighNibble(p[tcp + 12]) * 4; tls + 15 <= |p| && Be3(p, tls + 12) <= 65535
    ensures C.OutcomeTcp(p, tcp).Ok? ==>
              ExtractedTcp(p, tcp) == Ok(C.OutcomeTcp(p, tcp).value.fingerprint) && 70 <= |p|
  {
  }

  /** The two kernel parsers agree on every packet: the collector reaches its ring buffer exactly
      when the executor extracts a fingerprint and the leaf claims at most 65535 bytes, and then
      both have the same 32 bytes. */
  lemma ParsersAgree(p: Bytes)
    ensures C.Outcome(p).Ok? <==> Extracted(p).Ok? && LeafLength(p) <= 65535
    ensures C.Outcome(p).Ok? ==> Extracted(p) == Ok(C.Outcome(p).value.fingerprint)
  {
    if 59 <= |p| && LowNibble(p[14]) >= 5 {
      TcpParsersAgree(p, TcpOffset(p));
    }
  }

  /** The executor reads a written frame like the collector: any first part with a byte of the
      leaf yields that part's prefix, any shorter one yields nothing. */
  lemma ExtractsWhatWasWritten(f: Frame, p: Bytes)
    requires f.Valid() && C.Arrived(p, PutFrame(f))
    ensures if |p| <= f.LeafOffset() then Extracted(p).Err?
            else Extracted(p) == Ok(C.Shown(f, p))
  {
    C.RoundTripOfAnyPrefix(f, p);
    ParsersAgree(p);
    if |p| <= f.LeafOffset() && Extracted(p).Ok? {
      LeafLengthOfFrame(f, p);
    }
  }

  lemma LeafLengthOfFrame(f: Frame, p: Bytes)
    requires f.Valid() && C.Arrived(p, PutFrame(f)) && Extracted(p).Ok?
    ensures LeafLength(p) <= 65535
  {
    var full := PutFrame(f);
    C.FrameHeadersLaid(f);
    assert p[14] == full[14];
    assert TcpOffset(p) == f.TcpOffset();
    assert p[f.TcpOffset() + 12] == full[f.TcpOffset() + 12];
    assert TlsOffset(p) == f.TlsOffset();
    C.ArrivedBe3(p, full, f.TlsOffset() + 12);
  }

  // --- Decisions --------------------------------------------------------------------------

  /** The packet is dropped: its leaf is listed, and is not the certificate it is pinned to. */
  predicate ProtectShoots(t: ActionTable, p: Bytes) {
    var fp := Extracted(p);
    fp.Ok? && fp.value in t && t[fp.value].pinnedFp != fp.value
  }

  /** The packet is dropped: its leaf is listed and the entry active. */
  predicate IsolateShoots(t: ActionTable, p: Bytes) {
    var fp := Extracted(p);
    fp.Ok? && fp.value in t && t[fp.value].IsActive()
  }

  /** What isolating does to a handshake, on the wire: any part of a Certificate message that
      shows a byte of the leaf is dropped exactly if the bytes shown are listed as active; one
      that shows none always passes. */
  lemma IsolateOnTheWire(t: ActionTable, f: Frame, p: Bytes)
    requires f.Valid() && C.Arrived(p, PutFrame(f))
    ensures var shown := C.Shown(f, p);
            IsolateShoots(t, p) <==> |p| > f.LeafOffset() && shown in t && t[shown].IsActive()
  {
    ExtractsWhatWasWritten(f, p);
  }

  /** Protecting only ever drops a certificate listed under its own first bytes but pinned to
      others. */
  lemma ProtectOnTheWire(t: ActionTable, f: Frame, p: Bytes)
    requires f.Valid() && C.Arrived(p, PutFrame(f))
    ensures var shown := C.Shown(f, p);
            ProtectShoots(t, p) <==> |p| > f.LeafOffset() && shown in t && t[shown].pinnedFp != shown
  {
    ExtractsWhatWasWritten(f, p);
  }

  // --- The programs -----------------------------------------------------------------------

  method FingerprintsEqual(a: array<byte>, b: array<byte>) returns (equal: bool)
    requires a.Length == 32 && b.Length == 32
    ensures equal <==> a[..] == b[..]
  {
    var i := 0;
    while i < 32
      invariant 0 <= i <= 32
      invariant forall k :: 0 <= k < i ==> a[k] == b[k]
    {
      if a[i] != b[i] {
        assert a[..][i] != b[..][i];
        return false;
      }
      i := i + 1;
    }
    return true;
  }

  /** From the TLS record to the leaf's first bytes. */
  method ExtractFromRecord(p: Bytes, tls: nat) returns (r: Result<Fingerprint, nat>)
    ensures r == ExtractedTls(p, tls)
  {
    hide Pad;
    if |p| < tls + 5 {
      return Err(ERR_NOT_TLS);
    }
    var contentType :- LoadU8(p, tls);
    if contentType != 22 {
      return Err(ERR_NOT_TLS);
    }
    var recordLen :- LoadU16(p, tls + 3);
    if recordLen == 0 || recordLen > 16384 {
      return Err(ERR_NOT_TLS);
    }
    var hs := tls + 5;
    if |p| < hs + 4 {
      return Err(ERR_NOT_CERTIFICATE);
    }
    var hsType :- LoadU8(p, hs);
    if hsType != 11 {
      return Err(ERR_NOT_CERTIFICATE);
    }
    var certMsg := hs + 4;
    if |p| < certMsg + 3 {
      return Err(ERR_NOT_CERTIFICATE);
    }
    var firstCert := certMsg + 3;
    if |p| < firstCert + 3 {
      return Err(ERR_NOT_CERTIFICATE);
    }
    var l0 :- LoadU8(p, firstCert);
    var l1 :- LoadU8(p, firstCert + 1);
    var l2 :- LoadU8(p, firstCert + 2);
    var derLen := l0 as nat * 65536 + l1 as nat * 256 + l2 as nat;
    if derLen == 0 {
      return Err(ERR_NOT_CERTIFICATE);
    }
    var data := firstCert + 3;
    var available := if |p| > data then |p| - data else 0;
    var fpLen := if derLen < 32 then derLen else 32;
    fpLen := if fpLen > available then available else fpLen;
    if fpLen == 0 {
      return Err(ERR_NOT_CERTIFICATE);
    }
    assert C.Cut(p, data, Min(fpLen, 32)) == C.Cut(p, data, Min(derLen, 32));
    var fp := C.ReadPseudoFingerprint(p, data, fpLen);
    return Ok(fp);
  }

  method ExtractCertFingerprint(p: Bytes) returns (r: Result<Fingerprint, nat>)
    ensures r == Extracted(p)
  {
    if |p| < 70 {
      return Err(ERR_PKT_TOO_SHORT);
    }
    var ethProto :- LoadU16(p, 12);
    if ethProto != 0x0800 {
      return Err(ERR_NOT_IPV4);
    }
    var versionIhl :- LoadU8(p, 14);
    var ihl := LowNibble(versionIhl) * 4;
    if ihl < 20 || ihl > 60 {
      return Err(ERR_NOT_IPV4);
    }
    var protocol :- LoadU8(p, 23);
    if protocol != 6 {
      return Err(ERR_NOT_TCP);
    }
    var tcp := 14 + ihl;
    if |p| < tcp + 20 {
      return Err(ERR_PKT_TOO_SHORT);
    }
    var dataOffset :- LoadU8(p, tcp + 12);
    var tcpLen := HighNibble(dataOffset) * 4;
    if tcpLen < 20 || tcpLen > 60 {
      return Err(ERR_NOT_TCP);
    }
    r := ExtractFromRecord(p, tcp + tcpLen);
  }

  /** Drop connections that present another certificate than the pinned one. A packet that cannot
      be parsed passes. */
  method Protect(t: ActionTable, p: Bytes) returns (verdict: nat)
    ensures verdict == if ProtectShoots(t, p) then 2 else 0
  {
    var fp := ExtractCertFingerprint(p);
    if fp.Ok? && fp.value in t {
      var observed := new byte[32](i requires 0 <= i < 32 => fp.value[i]);
      var pinned := new byte[32](i requires 0 <= i < 32 => t[fp.value].pinnedFp[i]);
      var equal := FingerprintsEqual(observed, pinned);
      assert observed[..] == fp.value && pinned[..] == t[fp.value].pinnedFp;
      verdict := if equal then TC_ACT_OK else TC_ACT_SHOT;
    } else {
      verdict := TC_ACT_OK;
    }
  }

  /** Drop connections that present a certificate with an active isolate entry. */
  method Isolate(t: ActionTable, p: Bytes) returns (verdict: nat)
    ensures verdict == if IsolateShoots(t, p) then 2 else 0
  {
    var fp := ExtractCertFingerprint(p);
    if fp.Ok? && fp.value in t && t[fp.value].IsActive() {
      verdict := TC_ACT_SHOT;
    } else {
      verdict := TC_ACT_OK;
    }
  }
}

/** What the two parsers make of every packet, said on the packet's own bytes and without their
    specifications: which packets carry a certificate, which move a drop counter, which are never
    dropped. And what they make of written handshake messages of any type. */
module Handshakes {
  import opened Common
  import opened Wire
  import opened ActionEntry
  import C = Collector
  import E = KernelExecutor

  // --- Layers of a packet -----------------------------------------------------------------

  /** Ethernet carries IPv4. */
  predicate IsIpv4(p: Bytes) {
    59 <= |p| && p[12] == 8 && p[13] == 0
  }

  /** And IPv4, with a header of at least five words, carries TCP. */
  predicate IsTcp(p: Bytes) {
    IsIpv4(p) && p[14] % 16 >= 5 && p[23] == 6
  }

  function TcpStart(p: Bytes): nat
    requires 59 <= |p|
  {
    14 + 4 * (p[14] % 16) as nat
  }

  /** And a whole basic TCP header is there. */
  predicate HasTcpHeader(p: Bytes) {
    IsTcp(p) && |p| >= TcpStart(p) + 20
  }

  function TlsStart(p: Bytes): nat
    requires HasTcpHeader(p)
  {
    TcpStart(p) + 4 * (p[TcpStart(p) + 12] / 16) as nat
  }

  /** And what TCP carries starts with the header of a handshake record. */
  predicate HasRecordHeader(p: Bytes) {
    HasTcpHeader(p) && p[TcpStart(p) + 12] / 16 >= 5 && |p| >= TlsStart(p) + 5 && p[TlsStart(p)] == 22
  }

  function RecordLength(p: Bytes): nat
    requires HasRecordHeader(p)
  {
    256 * p[TlsStart(p) + 3] as nat + p[TlsStart(p) + 4] as nat
  }

  /** And the record's length is one a record may have: from 1 to 2^14 bytes. */
  predicate IsHandshake(p: Bytes) {
    HasRecordHeader(p) && 1 <= RecordLength(p) <= 16384
  }

  /** And the message in it is of type Certificate, up to the length of the first certificate. */
  predicate HasLeafLength(p: Bytes) {
    IsHandshake(p) && |p| >= TlsStart(p) + 15 && p[TlsStart(p) + 5] == 11
  }

  function LeafLength(p: Bytes): nat
    requires HasLeafLength(p)
  {
    var o := TlsStart(p) + 12;
    65536 * p[o] as nat + 256 * p[o + 1] as nat + p[o + 2] as nat
  }

  /** And at least one byte of that certificate. */
  predicate ShowsLeaf(p: Bytes) {
    HasLeafLength(p) && LeafLength(p) >= 1 && |p| > TlsStart(p) + 15
  }

  /** Its first bytes, as many as there are up to 32, and zeros after them. */
  function LeafKey(p: Bytes): Fingerprint
    requires ShowsLeaf(p)
  {
    var o := TlsStart(p) + 15;
    seq(32, i requires 0 <= i => if i < LeafLength(p) && o + i < |p| then p[o + i] else 0)
  }

  // --- The collector on every packet ------------------------------------------------------

  /** The collector gets to its ring buffer exactly for packets that show a leaf of at most 65535
      bytes, and takes it for what it is. */
  lemma CollectsIffLeafShown(p: Bytes)
    ensures C.Outcome(p).Ok? <==> ShowsLeaf(p) && LeafLength(p) <= 65535
    ensures C.Outcome(p).Ok? ==> C.Outcome(p).value.fingerprint == LeafKey(p)
  {
    hide C.ChainDepth, C.IssuerPrefix, C.LeafData, C.CertPrefix, Pad, LeafKey;
    CollectsMeans(p);
    if ShowsLeaf(p) {
      KeyIsPrefix(p);
    }
  }

  lemma CollectsMeans(p: Bytes)
    ensures C.Outcome(p).Ok? <==> ShowsLeaf(p) && LeafLength(p) <= 65535
    ensures C.Outcome(p).Ok? ==> C.Outcome(p).value.fingerprint == C.CertPrefix(p, TlsStart(p) + 12)
  {
    hide C.ChainDepth, C.IssuerPrefix, C.LeafData, C.CertPrefix, Pad;
    if 59 <= |p| {
      assert Be2(p, 12) == 0x0800 <==> IsIpv4(p);
    }
  }

  lemma KeyIsPrefix(p: Bytes)
    requires ShowsLeaf(p)
    ensures LeafKey(p) == C.CertPrefix(p, TlsStart(p) + 12)
  {
    assert LeafLength(p) == Be3(p, TlsStart(p) + 12);
  }

  /** The malformed counter moves exactly for packets with a header length, record length or leaf
      length that cannot be: in particular for no other handshake message, and none cut short. */
  lemma MalformedIff(p: Bytes)
    ensures C.Outcome(p).Err? && C.Outcome(p).error.malformed <==>
            || (IsIpv4(p) && p[14] % 16 < 5)
            || (HasTcpHeader(p) && p[TcpStart(p) + 12] / 16 < 5)
            || (HasRecordHeader(p) && !(1 <= RecordLength(p) <= 16384))
            || (HasLeafLength(p) && !(1 <= LeafLength(p) <= 65535))
  {
    hide C.Observed;
  }

  /** The counter of handshakes moves exactly for packets with the header of a handshake record of
      possible length, whatever follows. */
  lemma HandshakeCountedIff(p: Bytes)
    ensures C.Outcome(p).Ok? || C.Outcome(p).error.handshake <==> IsHandshake(p)
  {
    hide C.Observed;
  }

  /** The error code tells how far the packet got. */
  lemma CodeTellsLayer(p: Bytes)
    requires C.Outcome(p).Err?
    ensures C.Outcome(p).error.code ==
            if |p| < 59 then 1
            else if !IsIpv4(p) || p[14] % 16 < 5 then 2
            else if !IsTcp(p) then 3
            else if !HasTcpHeader(p) then 1
            else if p[TcpStart(p) + 12] / 16 < 5 then 3
            else if !IsHandshake(p) then 4
            else 5
  {
  }

  /** Counter 1 is the malformed one, counter 2 that of handshakes; the others stay. */
  lemma CountersMove(drops: seq<nat>, stop: C.Stop)
    requires |drops| == 4
    ensures var d := C.Dropped(drops, stop);
            && |d| == 4 && d[0] == drops[0] && d[3] == drops[3]
            && d[1] == drops[1] + (if stop.malformed then 1 else 0)
            && d[2] == drops[2] + (if stop.handshake then 1 else 0)
  {
  }

  /** A certificate entry at offset o: its three length bytes are within packet and list, and not all
      zero. */
  predicate EntryAt(p: Bytes, o: nat, end: nat) {
    o + 3 <= |p| && o + 3 <= end && (p[o] != 0 || p[o + 1] != 0 || p[o + 2] != 0)
  }

  /** Where the entry after the one at o starts. */
  function EntryEnd(p: Bytes, o: nat): nat
    requires o + 3 <= |p|
  {
    o + 3 + 65536 * p[o] as nat + 256 * p[o + 1] as nat + p[o + 2] as nat
  }

  /** n entries, one behind the other from o on. */
  predicate EntriesFrom(p: Bytes, o: nat, end: nat, n: nat)
    decreases n
  {
    n == 0 || (EntryAt(p, o, end) && EntriesFrom(p, EntryEnd(p, o), end, n - 1))
  }

  lemma {:induction false} EntriesAreAllThereAre(p: Bytes, o: nat, end: nat, bound: nat, n: nat)
    requires n <= bound
    ensures C.Entries(p, o, end, bound) <= bound && EntriesFrom(p, o, end, C.Entries(p, o, end, bound))
    ensures EntriesFrom(p, o, end, n) ==> n <= C.Entries(p, o, end, bound)
    decreases bound
  {
    if bound == 0 {
    } else if EntryAt(p, o, end) {
      assert EntryEnd(p, o) == o + 3 + Be3(p, o);
      EntriesAreAllThereAre(p, EntryEnd(p, o), end, bound - 1, if n > 0 then n - 1 else 0);
    } else {
      assert C.Entries(p, o, end, bound) == 0;
    }
  }

  /** The chain depth of any packet is the largest number of entries, from 1 to 10, that stand one
      behind the other in its list; one if there is none. */
  lemma ChainDepthIsLongestWalk(p: Bytes, start: nat, total: nat, n: nat)
    requires n <= 10
    ensures var depth := C.ChainDepth(p, start, total);
            && 1 <= depth <= 10
            && (depth > 1 ==> EntriesFrom(p, start, start + total, depth))
            && (EntriesFrom(p, start, start + total, n) ==> n <= depth)
  {
    EntriesAreAllThereAre(p, start, start + total, C.MAX_CHAIN, n);
  }

  /** An event goes out exactly if the ring has room, behind the others, and says whether its
      certificate was new. */
  lemma EventGoesIfRoom(events: seq<C.TlsCertEvent>, o: C.Observation, now: nat, isNew: bool, room: bool)
    ensures var after := C.Pushed(events, o, now, isNew, room);
            && |after| == |events| + (if room then 1 else 0) && after[..|events|] == events
            && (room ==>
                  var e := after[|events|];
                  && e.isNew == (if isNew then 1 else 0) && e.timestampNs == now
                  && e.fingerprint == o.fingerprint && e.certLen == o.copyLen && e.chainDepth == o.chainDepth)
    ensures C.ERR_RINGBUF_FULL == 6
  {
  }

  // --- The executor on every packet -------------------------------------------------------

  /** The only key a packet can be dropped for, if it can be dropped at all. */
  function KeyOf(p: Bytes): Option<Fingerprint> {
    if ShowsLeaf(p) then Some(LeafKey(p)) else None
  }

  lemma ExtractedIsKey(p: Bytes)
    ensures if E.Extracted(p).Ok? then KeyOf(p) == Some(E.Extracted(p).value) else KeyOf(p) == None
  {
    if ShowsLeaf(p) {
      KeyIsPrefix(p);
    }
  }

  /** key is all that isolating looks at in p. */
  ghost predicate IsolatedBy(p: Bytes, key: Option<Fingerprint>) {
    forall t: ActionTable ::
      E.IsolateShoots(t, p) <==> key.Some? && key.value in t && t[key.value].flags % 2 == 1
  }

  /** key is all that protecting looks at in p. */
  ghost predicate ProtectedBy(p: Bytes, key: Option<Fingerprint>) {
    forall t: ActionTable ::
      E.ProtectShoots(t, p) <==> key.Some? && key.value in t && t[key.value].pinnedFp != key.value
  }

  function EntryAgainst(key: Fingerprint): BpfActionEntry {
    var pin: Fingerprint := if key[0] == 0 then seq(32, i => 1) else ZeroFingerprint();
    BpfActionEntry(key, 3, 3, 0, pin, 1)
  }

  /** Main result on dropping: every packet whatsoever has one key, the leaf it shows if it shows
      one, and no other: under every table it is dropped by isolating exactly if that key has an
      active entry, and by protecting exactly if that key has an entry that pins another. */
  lemma EveryPacketHasOneKey(p: Bytes, key: Option<Fingerprint>)
    ensures IsolatedBy(p, key) <==> key == KeyOf(p)
    ensures ProtectedBy(p, key) <==> key == KeyOf(p)
  {
    ExtractedIsKey(p);
    if key != KeyOf(p) {
      var k := if key.Some? then key.value else KeyOf(p).value;
      var t: ActionTable := map[k := EntryAgainst(k)];
      assert E.IsolateShoots(t, p) <==> KeyOf(p) == Some(k);
      assert EntryAgainst(k).pinnedFp[0] != k[0];
      assert E.ProtectShoots(t, p) <==> KeyOf(p) == Some(k);
    }
  }

  /** The executor's error code tells how far the packet got. */
  lemma ExecutorCodeTellsLayer(p: Bytes)
    requires E.Extracted(p).Err?
    ensures E.Extracted(p).error ==
            if |p| < 70 then 1
            else if !IsIpv4(p) || p[14] % 16 < 5 then 2
            else if !IsTcp(p) then 3
            else if !HasTcpHeader(p) then 1
            else if p[TcpStart(p) + 12] / 16 < 5 then 3
            else if !IsHandshake(p) then 4
            else 5
  {
    hide C.CertPrefix;
  }

  /** Packets that show no certificate pass, whatever the tables hold: anything that is not IPv4, not
      TCP, not a handshake record, or not a Certificate message. And empty tables drop nothing. */
  lemma OthersPass(t: ActionTable, p: Bytes)
    ensures !ShowsLeaf(p) || t == map[] ==> !E.IsolateShoots(t, p) && !E.ProtectShoots(t, p)
    ensures (|p| < 14 || p[12] != 8 || p[13] != 0) || (|p| > 23 && p[23] != 6) ==> !ShowsLeaf(p)
    ensures HasTcpHeader(p) && (|p| <= TlsStart(p) + 5 || p[TlsStart(p)] != 22 || p[TlsStart(p) + 5] != 11) ==>
              !ShowsLeaf(p)
  {
    EveryPacketHasOneKey(p, KeyOf(p));
  }

  // --- Written handshake messages of any type ---------------------------------------------

  /** A handshake message in a record, behind the IP and TCP headers of a frame: sections 6.2.1 and
      7.4 of RFC 5246. */
  datatype Message = Message(carrier: Frame, recordLength: nat, msgType: byte, msgLength: nat, body: Bytes)
  {
    ghost predicate Valid() {
      carrier.Valid() && 1 <= recordLength <= 16384 && msgLength < 16777216
    }
  }

  function PutRecord(m: Message): (b: Bytes)
    requires m.Valid()
    ensures |b| == 9 + |m.body|
  {
    [22] + Put2(m.carrier.tlsVersion) + Put2(m.recordLength) + ([m.msgType] + Put3(m.msgLength) + m.body)
  }

  function PutMessage(m: Message): (b: Bytes)
    requires m.Valid()
    ensures |b| == m.carrier.TlsOffset() + 9 + |m.body|
  {
    PutIp(m.carrier) + PutTcp(m.carrier) + PutRecord(m)
  }

  lemma RecordFields(full: Bytes, o: nat, m: Message)
    requires m.Valid() && At(full, o, PutRecord(m))
    ensures full[o] == 22 && Be2(full, o + 3) == m.recordLength && full[o + 5] == m.msgType
  {
    hide Be2;
    var version, length := Put2(m.carrier.tlsVersion), Put2(m.recordLength);
    var message := [m.msgType] + Put3(m.msgLength) + m.body;
    AtConcat(full, o, [22] + version + length, message);
    AtConcat(full, o, [22] + version, length);
    AtConcat(full, o, [22], version);
    AtByte(full, o, [22], 0);
    AtPut2(full, o + 3, m.recordLength);
    AtByte(full, o + 5, message, 0);
  }

  lemma MessageParts(m: Message)
    requires m.Valid()
    ensures var full, f := PutMessage(m), m.carrier;
            At(full, 0, PutIp(f)) && At(full, f.TcpOffset(), PutTcp(f)) && At(full, f.TlsOffset(), PutRecord(m))
  {
    var full, f := PutMessage(m), m.carrier;
    assert full[..f.TcpOffset()] == PutIp(f);
    assert full[f.TcpOffset()..f.TlsOffset()] == PutTcp(f);
    assert full[f.TlsOffset()..] == PutRecord(m);
  }

  /** How far a written message gets, by how much of it arrives. */
  lemma WrittenLayers(m: Message, p: Bytes)
    requires m.Valid() && C.Arrived(p, PutMessage(m))
    ensures 59 <= |p| ==> IsTcp(p) && TcpStart(p) == m.carrier.TcpOffset()
    ensures HasTcpHeader(p) <==> 59 <= |p| && m.carrier.TcpOffset() + 20 <= |p|
    ensures HasTcpHeader(p) ==> p[TcpStart(p) + 12] / 16 >= 5 && TlsStart(p) == m.carrier.TlsOffset()
    ensures HasRecordHeader(p) <==> m.carrier.TlsOffset() + 5 <= |p|
    ensures HasRecordHeader(p) ==> RecordLength(p) == m.recordLength
    ensures m.carrier.TlsOffset() + 6 <= |p| ==> p[m.carrier.TlsOffset() + 5] == m.msgType
  {
    hide PutMessage, PutIp, PutTcp, PutRecord;
    var full, f := PutMessage(m), m.carrier;
    MessageParts(m);
    IpFields(full, f);
    TcpFields(full, f, f.TcpOffset());
    RecordFields(full, f.TlsOffset(), m);
    assert forall i :: 0 <= i < |p| ==> p[i] == full[i];
  }

  /** Main result on other handshakes: of a written handshake message of any type but Certificate,
      a ClientHello or ServerHello say, no part that arrives ever yields an event, moves the malformed
      counter, or is dropped; and it is counted as a handshake exactly if its record header arrived. */
  lemma OtherHandshakesPass(m: Message, p: Bytes, t: ActionTable)
    requires m.Valid() && m.msgType != 11 && C.Arrived(p, PutMessage(m))
    ensures C.Outcome(p).Err? && !C.Outcome(p).error.malformed
    ensures C.Outcome(p).error.handshake <==> |p| >= m.carrier.TlsOffset() + 5
    ensures |p| >= m.carrier.TlsOffset() + 5 ==> C.Outcome(p).error.code == 5
    ensures !E.IsolateShoots(t, p) && !E.ProtectShoots(t, p)
  {
    hide C.Outcome, E.IsolateShoots, E.ProtectShoots, PutMessage;
    WrittenLayers(m, p);
    CollectsIffLeafShown(p);
    MalformedIff(p);
    HandshakeCountedIff(p);
    CodeTellsLayer(p);
    OthersPass(t, p);
  }
}

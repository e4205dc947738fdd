/** Inventory import: parsing fingerprints, validating entries, and replacing the stored inventory
    by upserting every valid entry and deleting what the refresh did not touch. */
module Inventory {
  import opened Common
  import opened Storage

  // --- Fingerprints in hex ----------------------------------------------------------------

  predicate IsHexDigit(c: char) {
    '0' <= c <= '9' || 'a' <= c <= 'f' || 'A' <= c <= 'F'
  }

  function DigitValue(c: char): (v: nat)
    requires IsHexDigit(c)
    ensures v < 16
  {
    if '0' <= c <= '9' then (c - '0') as nat
    else if 'a' <= c <= 'f' then (c - 'a') as nat + 10
    else (c - 'A') as nat + 10
  }

  /** The lower-case digit of a nibble. */
  function HexDigit(n: nat): (c: char)
    requires n < 16
    ensures IsHexDigit(c)
  {
    "0123456789abcdef"[n]
  }

  /** The string without everything that is no hex digit. */
  function Clean(s: string): (r: string)
    ensures forall i :: 0 <= i < |r| ==> IsHexDigit(r[i])
  {
    if s == "" then ""
    else Clean(s[..|s| - 1]) + if IsHexDigit(s[|s| - 1]) then [s[|s| - 1]] else ""
  }

  function ByteAt(digits: string, i: nat): byte
    requires i < 32 && |digits| == 64 && forall k :: 0 <= k < 64 ==> IsHexDigit(digits[k])
  {
    (DigitValue(digits[2 * i]) * 16 + DigitValue(digits[2 * i + 1])) as byte
  }

  function Parsed(hex: string): Option<Fingerprint> {
    var digits := Clean(hex);
    if |digits| != 64 then None else Some(seq(32, i requires 0 <= i < 32 => ByteAt(digits, i)))
  }

  /** The canonical printing: two lower-case digits a byte. */
  function Hex(fp: Fingerprint): (s: string)
    ensures |s| == 64
  {
    seq(64, k requires 0 <= k < 64 =>
      HexDigit(if k % 2 == 0 then fp[k / 2] as nat / 16 else fp[k / 2] as nat % 16))
  }

  /** The digits are the usual ones, in either case. */
  lemma DigitsAreTheUsual(n: nat, c: char)
    requires n < 16
    ensures HexDigit(n) as int == (if n < 10 then 48 else 87) + n
    ensures IsHexDigit(c) <==> 48 <= c as int <= 57 || 97 <= c as int <= 102 || 65 <= c as int <= 70
    ensures IsHexDigit(c) ==>
              DigitValue(c) == c as int - (if c as int <= 57 then 48 else if c as int <= 70 then 55 else 87)
  {
  }

  lemma DigitsInvert(c: char, n: nat)
    requires IsHexDigit(c) && n < 16
    ensures DigitValue(c) == n <==> LowerChar(c) == HexDigit(n)
  {
  }

  predicate IsHexString(digits: string) {
    |digits| == 64 && forall k :: 0 <= k < 64 ==> IsHexDigit(digits[k])
  }

  /** The two digits of byte i read as that byte exactly if they are its printing. */
  lemma ByteInverts(digits: string, fp: Fingerprint, i: nat)
    requires IsHexString(digits) && i < 32
    ensures ByteAt(digits, i) == fp[i] <==>
            LowerChar(digits[2 * i]) == Hex(fp)[2 * i] && LowerChar(digits[2 * i + 1]) == Hex(fp)[2 * i + 1]
  {
    var high, low := fp[i] as nat / 16, fp[i] as nat % 16;
    assert Hex(fp)[2 * i] == HexDigit(high) && Hex(fp)[2 * i + 1] == HexDigit(low);
    DigitsInvert(digits[2 * i], high);
    DigitsInvert(digits[2 * i + 1], low);
    assert fp[i] as nat == high * 16 + low;
  }

  lemma PrintingParses(digits: string, fp: Fingerprint)
    requires IsHexString(digits) && AsciiLower(digits) == Hex(fp)
    ensures forall i :: 0 <= i < 32 ==> ByteAt(digits, i) == fp[i]
  {
    hide Hex, LowerChar;
    forall i | 0 <= i < 32 ensures ByteAt(digits, i) == fp[i] {
      ByteInverts(digits, fp, i);
    }
  }

  lemma ParsedIsPrinting(digits: string, fp: Fingerprint)
    requires IsHexString(digits) && forall i :: 0 <= i < 32 ==> ByteAt(digits, i) == fp[i]
    ensures AsciiLower(digits) == Hex(fp)
  {
    hide Hex, LowerChar;
    forall k | 0 <= k < 64 ensures LowerChar(digits[k]) == Hex(fp)[k] {
      ByteInverts(digits, fp, k / 2);
      assert ByteAt(digits, k / 2) == fp[k / 2];
      assert k == 2 * (k / 2) || k == 2 * (k / 2) + 1;
    }
  }

  /** Main result on parsing: a string parses to a fingerprint exactly if it reads as the
      fingerprint's printing once everything but hex digits is dropped and letters are lowered.
      So any case is accepted, and any separators anywhere. */
  lemma ParsingInvertsPrinting(hex: string, fp: Fingerprint)
    ensures Parsed(hex) == Some(fp) <==> AsciiLower(Clean(hex)) == Hex(fp)
  {
    hide Hex, ByteAt, LowerChar;
    var digits := Clean(hex);
    if |digits| == 64 {
      var parsed := Parsed(hex).value;
      assert forall i :: 0 <= i < 32 ==> parsed[i] == ByteAt(digits, i);
      if parsed == fp {
        ParsedIsPrinting(digits, fp);
      }
      if AsciiLower(digits) == Hex(fp) {
        PrintingParses(digits, fp);
        assert parsed == fp;
      }
    }
  }

  lemma {:induction false} CleanOfJoin(a: string, b: string)
    ensures Clean(a + b) == Clean(a) + Clean(b)
  {
    if b == "" {
      assert a + b == a;
    } else {
      CleanOfJoin(a, b[..|b| - 1]);
      assert (a + b)[..|a + b| - 1] == a + b[..|b| - 1];
    }
  }

  lemma {:induction false} CleanKeepsHex(s: string)
    requires forall i :: 0 <= i < |s| ==> IsHexDigit(s[i])
    ensures Clean(s) == s
  {
    if s == "" {
    } else {
      CleanKeepsHex(s[..|s| - 1]);
    }
  }

  /** Two strings parse alike exactly if they have the same hex digits in the same order, case aside,
      or neither has 64 of them. */
  lemma ParseAlikeIffSameDigits(a: string, b: string)
    ensures Parsed(a) == Parsed(b) <==>
            AsciiLower(Clean(a)) == AsciiLower(Clean(b)) || (|Clean(a)| != 64 && |Clean(b)| != 64)
  {
    hide Clean, Hex, ByteAt, LowerChar;
    if Parsed(a).Some? {
      ParsingInvertsPrinting(a, Parsed(a).value);
      ParsingInvertsPrinting(b, Parsed(a).value);
    } else if Parsed(b).Some? {
      ParsingInvertsPrinting(b, Parsed(b).value);
    }
  }

  /** Digits with something in front of each and after the last. */
  function Spelled(digits: string, gaps: seq<string>): string
    requires |gaps| == |digits| + 1
  {
    if digits == "" then gaps[0]
    else
      var n := |digits| - 1;
      Spelled(digits[..n], gaps[..n + 1]) + [digits[n]] + gaps[n + 1]
  }

  ghost predicate HexFree(s: string) {
    forall i :: 0 <= i < |s| ==> !IsHexDigit(s[i])
  }

  lemma {:induction false} SpelledIsClean(digits: string, gaps: seq<string>)
    requires |gaps| == |digits| + 1 && forall i :: 0 <= i < |digits| ==> IsHexDigit(digits[i])
    requires forall i :: 0 <= i < |gaps| ==> HexFree(gaps[i])
    ensures Clean(Spelled(digits, gaps)) == digits
  {
    if digits == "" {
      CleanDropsOthers(gaps[0]);
    } else {
      var n := |digits| - 1;
      var before := Spelled(digits[..n], gaps[..n + 1]);
      SpelledIsClean(digits[..n], gaps[..n + 1]);
      CleanOfJoin(before + [digits[n]], gaps[n + 1]);
      CleanOfJoin(before, [digits[n]]);
      CleanDropsOthers(gaps[n + 1]);
      CleanKeepsHex([digits[n]]);
      assert digits == digits[..n] + [digits[n]];
    }
  }

  /** A printed fingerprint parses back, each letter in either case, with any separators without hex
      digits between, before and after. */
  lemma PrintedParsesBack(fp: Fingerprint, digits: string, gaps: seq<string>)
    requires AsciiLower(digits) == Hex(fp)
    requires |gaps| == |digits| + 1 && forall i :: 0 <= i < |gaps| ==> HexFree(gaps[i])
    ensures Parsed(Spelled(digits, gaps)) == Some(fp)
  {
    forall i | 0 <= i < |digits| ensures IsHexDigit(digits[i]) {
      assert IsHexDigit(Hex(fp)[i]) && LowerChar(digits[i]) == Hex(fp)[i];
    }
    SpelledIsClean(digits, gaps);
    ParsingInvertsPrinting(Spelled(digits, gaps), fp);
  }

  lemma {:induction false} CleanDropsOthers(s: string)
    requires HexFree(s)
    ensures Clean(s) == ""
  {
    if s == "" {
    } else {
      CleanDropsOthers(s[..|s| - 1]);
    }
  }

  // --- The imported inventory -------------------------------------------------------------

  /** An entry of the inventory file, either field possibly missing. */
  datatype RawEntry = RawEntry(fingerprint: Option<string>, subject: Option<string>)

  /** Both fields present, the subject non-empty, the fingerprint readable. */
  function Validated(raw: RawEntry): Option<(Fingerprint, string)> {
    if raw.fingerprint.None? || raw.subject.None? || raw.subject.value == "" then None
    else
      var fp := Parsed(raw.fingerprint.value);
      if fp.None? then None else Some((fp.value, raw.subject.value))
  }

  /** An entry is accepted exactly if it has a fingerprint with 64 hex digits and a subject that is not
      empty; it is then that fingerprint with that subject. */
  lemma AcceptedIff(raw: RawEntry)
    ensures Validated(raw).Some? <==>
            && raw.fingerprint.Some? && |Clean(raw.fingerprint.value)| == 64
            && raw.subject.Some? && raw.subject.value != ""
    ensures Validated(raw).Some? ==>
              Validated(raw).value.1 == raw.subject.value
              && Parsed(raw.fingerprint.value) == Some(Validated(raw).value.0)
  {
    hide Clean, ByteAt;
  }

  datatype Refresh = Refresh(id: string, source: string, now: int)

  /** The inventory an import stands for, from scratch: every valid entry, a later one for the same
      certificate in place of an earlier one. */
  function Imported(entries: seq<RawEntry>, r: Refresh): InventoryTable {
    if entries == [] then map[]
    else
      var before := Imported(entries[..|entries| - 1], r);
      var entry := Validated(entries[|entries| - 1]);
      if entry.None? then before
      else before[entry.value.0 := InventoryRow(entry.value.1, r.source, r.now, r.id)]
  }

  function ValidCount(entries: seq<RawEntry>): (n: nat)
    ensures n <= |entries|
  {
    if entries == [] then 0
    else ValidCount(entries[..|entries| - 1]) + if Validated(entries[|entries| - 1]).Some? then 1 else 0
  }

  /** Every accepted entry counts, repeated ones each time. */
  lemma {:induction false} ValidCountCounts(entries: seq<RawEntry>, accepted: set<int>)
    requires forall i :: i in accepted <==> 0 <= i < |entries| && Validated(entries[i]).Some?
    ensures ValidCount(entries) == |accepted|
  {
    if entries == [] {
      forall i ensures i !in accepted {
      }
      assert accepted == {};
    } else {
      hide Validated;
      var n := |entries| - 1;
      assert forall i :: 0 <= i < n ==> entries[..n][i] == entries[i];
      ValidCountCounts(entries[..n], accepted - {n});
      assert n in accepted ==> accepted == accepted - {n} + {n};
      assert n !in accepted ==> accepted == accepted - {n};
    }
  }

  /** entries[i] is the last valid entry for its certificate. */
  ghost predicate LastFor(entries: seq<RawEntry>, i: nat, fp: Fingerprint) {
    && i < |entries| && Validated(entries[i]).Some? && Validated(entries[i]).value.0 == fp
    && forall j :: i < j < |entries| && Validated(entries[j]).Some? ==> Validated(entries[j]).value.0 != fp
  }

  /** A certificate is imported exactly if some valid entry names it, with the last one's subject. */
  lemma {:induction false} ImportedIsLastEntry(entries: seq<RawEntry>, r: Refresh, fp: Fingerprint)
    ensures fp in Imported(entries, r) <==> exists i: nat :: LastFor(entries, i, fp)
    ensures forall i: nat :: LastFor(entries, i, fp) ==>
              fp in Imported(entries, r) &&
              Imported(entries, r)[fp] == InventoryRow(Validated(entries[i]).value.1, r.source, r.now, r.id)
  {
    if entries == [] {
    } else {
      var n := |entries| - 1;
      var init := entries[..n];
      ImportedIsLastEntry(init, r, fp);
      var v := Validated(entries[n]);
      if v.Some? && v.value.0 == fp {
        assert LastFor(entries, n, fp);
        forall i: nat | LastFor(entries, i, fp) ensures i == n {
          assert !(i < n);
        }
      } else {
        forall i: nat ensures LastFor(entries, i, fp) <==> LastFor(init, i, fp) {
          LastForInit(entries, i, fp);
        }
      }
    }
  }

  lemma LastForInit(entries: seq<RawEntry>, i: nat, fp: Fingerprint)
    requires entries != [] && !(Validated(entries[|entries| - 1]).Some? &&
            Validated(entries[|entries| - 1]).value.0 == fp)
    ensures LastFor(entries, i, fp) <==> LastFor(entries[..|entries| - 1], i, fp)
  {
  }

  // --- The refresh ------------------------------------------------------------------------

  method FilterHexDigits(hex: string) returns (clean: string)
    ensures clean == Clean(hex)
  {
    clean := "";
    var i := 0;
    while i < |hex|
      invariant 0 <= i <= |hex| && clean == Clean(hex[..i])
    {
      assert hex[..i + 1][..i] == hex[..i];
      if IsHexDigit(hex[i]) {
        clean := clean + [hex[i]];
      }
      i := i + 1;
    }
    assert hex[..i] == hex;
  }

  method ParseHexFingerprint(hex: string) returns (r: Option<Fingerprint>)
    ensures r == Parsed(hex)
  {
    var clean := FilterHexDigits(hex);
    if |clean| != 64 {
      return None;
    }
    var result := new byte[32](_ => 0);
    var i := 0;
    while i < 32
      invariant 0 <= i <= 32
      invariant forall k :: 0 <= k < i ==> result[k] == ByteAt(clean, k)
    {
      result[i] := (DigitValue(clean[i * 2]) * 16 + DigitValue(clean[i * 2 + 1])) as byte;
      i := i + 1;
    }
    assert result[..] == seq(32, i requires 0 <= i < 32 => ByteAt(clean, i));
    return Some(result[..]);
  }

  method ValidateEntry(raw: RawEntry) returns (r: Option<(Fingerprint, string)>)
    ensures r == Validated(raw)
  {
    if raw.fingerprint.None? || raw.subject.None? {
      return None;
    }
    if raw.subject.value == "" {
      return None;
    }
    var fp := ParseHexFingerprint(raw.fingerprint.value);
    return if fp.None? then None else Some((fp.value, raw.subject.value));
  }

  function RowsOf(t: InventoryTable, refreshId: string): InventoryTable {
    map fp | fp in t && t[fp].lastRefreshId == refreshId :: t[fp]
  }

  /** DELETE ... WHERE last_refresh_id != ?: how many rows go, and what stays. */
  method RemoveStaleEntries(store: Storage, refreshId: string) returns (removed: nat)
    modifies store`inventory
    ensures store.inventory == RowsOf(old(store.inventory), refreshId)
    ensures removed == |old(store.inventory)| - |store.inventory|
  {
    var t := store.inventory;
    store.inventory := map fp | fp in t && t[fp].lastRefreshId == refreshId :: t[fp];
    assert store.inventory.Keys <= t.Keys;
    SubsetSize(store.inventory.Keys, t.Keys);
    return |t| - |store.inventory|;
  }

  datatype RefreshResult = RefreshResult(totalEntries: nat, removedEntries: nat, skippedInvalid: nat)

  /** Upsert the valid entries over what is there. */
  method ImportEntries(store: Storage, entries: seq<RawEntry>, r: Refresh) returns (total: nat, skipped: nat)
    modifies store`inventory
    ensures store.inventory == old(store.inventory) + Imported(entries, r)
    ensures total == ValidCount(entries) && total + skipped == |entries|
  {
    hide Parsed;
    total, skipped := 0, 0;
    var i := 0;
    while i < |entries|
      invariant 0 <= i <= |entries|
      invariant store.inventory == old(store.inventory) + Imported(entries[..i], r)
      invariant total == ValidCount(entries[..i]) && total + skipped == i
    {
      assert entries[..i + 1][..i] == entries[..i];
      var entry := ValidateEntry(entries[i]);
      if entry.Some? {
        store.inventory := store.inventory[entry.value.0 := InventoryRow(entry.value.1, r.source, r.now, r.id)];
        total := total + 1;
      } else {
        skipped := skipped + 1;
      }
      i := i + 1;
    }
    assert entries[..i] == entries;
  }

  /** With a refresh id no stored row has, a refresh replaces the inventory: afterwards it is what
      the entries stand for, whatever was there before. */
  method RefreshInventory(store: Storage, entries: seq<RawEntry>, r: Refresh) returns (result: RefreshResult)
    requires forall fp :: fp in store.inventory ==> store.inventory[fp].lastRefreshId != r.id
    modifies store`inventory
    ensures store.inventory == Imported(entries, r)
    ensures result.totalEntries == ValidCount(entries) && result.totalEntries + result.skippedInvalid == |entries|
    ensures result.removedEntries == |old(store.inventory).Keys - Imported(entries, r).Keys|
  {
    hide Imported, RowsOf;
    ghost var before := store.inventory;
    var total, skipped := ImportEntries(store, entries, r);
    ImportedHasId(entries, r);
    OverlayCardinality(before, Imported(entries, r));
    OnlyImportedKept(before, Imported(entries, r), r.id);
    var removed := RemoveStaleEntries(store, r.id);
    result := RefreshResult(total, removed, skipped);
  }

  lemma OnlyImportedKept(before: InventoryTable, imported: InventoryTable, id: string)
    requires forall fp :: fp in before ==> before[fp].lastRefreshId != id
    requires forall fp :: fp in imported ==> imported[fp].lastRefreshId == id
    ensures RowsOf(before + imported, id) == imported
  {
  }

  lemma {:induction false} ImportedHasId(entries: seq<RawEntry>, r: Refresh)
    ensures forall fp :: fp in Imported(entries, r) ==> Imported(entries, r)[fp].lastRefreshId == r.id
  {
    if entries == [] {
    } else {
      ImportedHasId(entries[..|entries| - 1], r);
    }
  }

  lemma OverlayCardinality(before: InventoryTable, imported: InventoryTable)
    ensures |before + imported| - |imported| == |before.Keys - imported.Keys|
  {
  }
}

/** Matching the server name of a handshake against a certificate's alternative names. */
module SniMatch {
  import opened Common

  // --- The matcher ------------------------------------------------------------------------

  predicate HasSuffix(s: string, suffix: string) {
    |suffix| <= |s| && s[|s| - |suffix|..] == suffix
  }

  /** Equal up to ASCII case; or the name's wildcard base is a suffix after one label. */
  predicate SniMatchesSan(sni: string, san: string) {
    var s, p := AsciiLower(sni), AsciiLower(san);
    s == p ||
    ("*." <= p &&
     var base := p[2..];
     base != "" && HasSuffix(s, "." + base) &&
     var subdomain := s[..|s| - |base| - 1];
     subdomain != "" && '.' !in subdomain)
  }

  predicate SniMatchesAnySan(sni: string, sans: seq<string>) {
    exists i :: 0 <= i < |sans| && SniMatchesSan(sni, sans[i])
  }

  // --- Labels -----------------------------------------------------------------------------

  /** The parts of a name between its dots. */
  function Labels(s: string): (r: seq<string>)
    ensures r != []
  {
    if s == "" then [""]
    else
      var rest := Labels(s[1..]);
      if s[0] == '.' then [""] + rest else [[s[0]] + rest[0]] + rest[1..]
  }

  lemma {:induction false} FirstLabelHasNoDot(s: string)
    ensures '.' !in Labels(s)[0]
  {
    if s == "" {
    } else {
      FirstLabelHasNoDot(s[1..]);
    }
  }

  /** A dot-free first part followed by a dot is the first label. */
  lemma {:induction false} LabelsOfSplit(first: string, rest: string)
    requires '.' !in first
    ensures Labels(first + "." + rest) == [first] + Labels(rest)
  {
    var whole := first + "." + rest;
    if first == "" {
      assert whole[1..] == rest;
    } else {
      LabelsOfSplit(first[1..], rest);
      assert whole[1..] == first[1..] + "." + rest;
      assert [first[0]] + first[1..] == first;
    }
  }

  /** Joining the labels gives the name back, so a name is determined by its labels. */
  lemma {:induction false} SplitOffFirst(s: string)
    requires |Labels(s)| >= 2
    ensures var first := Labels(s)[0];
            |first| < |s| && s[..|first|] == first && s[|first|] == '.' && Labels(s[|first| + 1..]) == Labels(s)[1..]
  {
    if s[0] == '.' {
      assert s[..0] == "";
    } else {
      SplitOffFirst(s[1..]);
      var first := Labels(s)[0];
      assert first == [s[0]] + Labels(s[1..])[0];
      assert s[|first| + 1..] == s[1..][|first|..];
      assert s == [s[0]] + s[1..];
    }
  }

  lemma {:induction false} LabelsDetermineName(a: string, b: string)
    requires Labels(a) == Labels(b)
    ensures a == b
    decreases |a|
  {
    if |Labels(a)| == 1 {
      SingleLabel(a);
      SingleLabel(b);
    } else {
      SplitOffFirst(a);
      SplitOffFirst(b);
      var n := |Labels(a)[0]| + 1;
      LabelsDetermineName(a[n..], b[n..]);
      assert a == a[..n - 1] + [a[n - 1]] + a[n..] && b == b[..n - 1] + [b[n - 1]] + b[n..];
    }
  }

  lemma {:induction false} SingleLabel(s: string)
    requires |Labels(s)| == 1
    ensures Labels(s) == [s]
  {
    if s == "" {
    } else {
      SingleLabel(s[1..]);
      assert [s[0]] + s[1..] == s;
    }
  }

  // --- What matching means ----------------------------------------------------------------

  /** The wildcard rule on whole labels: "*." and a non-empty base, whose labels are those of the
      server name after a non-empty first one. */
  predicate WildcardCovers(sni: string, san: string) {
    var s, p := AsciiLower(sni), AsciiLower(san);
    "*." <= p && p[2..] != "" &&
    Labels(s)[1..] == Labels(p[2..]) && Labels(s)[0] != ""
  }

  lemma SuffixMeansLabels(s: string, base: string)
    requires HasSuffix(s, "." + base) && '.' !in s[..|s| - |base| - 1]
    ensures Labels(s) == [s[..|s| - |base| - 1]] + Labels(base)
  {
    var first := s[..|s| - |base| - 1];
    assert s == first + s[|s| - |base| - 1..];
    assert s == first + "." + base;
    LabelsOfSplit(first, base);
  }

  lemma SuffixAfterDot(s: string, n: nat)
    requires n < |s| && s[n] == '.'
    ensures HasSuffix(s, "." + s[n + 1..])
  {
  }

  lemma WhereLabelsCut(s: string, base: string) returns (n: nat)
    requires Labels(s)[1..] == Labels(base)
    ensures n < |s| && s[n] == '.' && s[n + 1..] == base && s[..n] == Labels(s)[0]
  {
    SplitOffFirst(s);
    n := |Labels(s)[0]|;
    LabelsDetermineName(s[n + 1..], base);
  }

  lemma LabelsMeanSuffix(s: string, base: string)
    requires Labels(s)[1..] == Labels(base)
    ensures HasSuffix(s, "." + base) && s[..|s| - |base| - 1] == Labels(s)[0]
  {
    hide Labels, HasSuffix;
    var n := WhereLabelsCut(s, base);
    SuffixAfterDot(s, n);
    assert |s[n + 1..]| == |base|;
  }

  /** Main result: stripping suffixes is matching labels. A name matches exactly if it is equal up
      to case or the wildcard covers it label by label. */
  lemma MatchingIsByLabels(sni: string, san: string)
    ensures SniMatchesSan(sni, san) <==> AsciiLower(sni) == AsciiLower(san) || WildcardCovers(sni, san)
  {
    var s, p := AsciiLower(sni), AsciiLower(san);
    if "*." <= p && p[2..] != "" {
      var base := p[2..];
      if HasSuffix(s, "." + base) && '.' !in s[..|s| - |base| - 1] {
        SuffixMeansLabels(s, base);
      }
      if Labels(s)[1..] == Labels(base) {
        LabelsMeanSuffix(s, base);
        FirstLabelHasNoDot(s);
      }
    }
  }

  /** Hence the two names have equally many labels: a wildcard never spans two levels, nor none. */
  lemma MatchingKeepsLabelCount(sni: string, san: string)
    requires SniMatchesSan(sni, san)
    ensures |Labels(AsciiLower(sni))| == |Labels(AsciiLower(san))|
  {
    MatchingIsByLabels(sni, san);
    var p := AsciiLower(san);
    if WildcardCovers(sni, san) {
      assert p == "*" + "." + p[2..];
      LabelsOfSplit("*", p[2..]);
    }
  }

  /** A list of names matches exactly if some name in it does, wherever it stands. */
  lemma AnyNameMayMatch(sni: string, sans: seq<string>)
    ensures SniMatchesAnySan(sni, sans) <==>
            exists i :: 0 <= i < |sans| && (AsciiLower(sni) == AsciiLower(sans[i]) || WildcardCovers(sni, sans[i]))
    ensures !SniMatchesAnySan(sni, [])
  {
    forall i | 0 <= i < |sans|
      ensures SniMatchesSan(sni, sans[i]) <==> AsciiLower(sni) == AsciiLower(sans[i]) || WildcardCovers(sni, sans[i])
    {
      MatchingIsByLabels(sni, sans[i]);
    }
  }

  /** Case never matters, on either side, for one name or a list of them. */
  lemma CaseNeverMatters(sni: string, sni': string, sans: seq<string>, sans': seq<string>)
    requires AsciiLower(sni) == AsciiLower(sni') && |sans| == |sans'|
    requires forall i :: 0 <= i < |sans| ==> AsciiLower(sans[i]) == AsciiLower(sans'[i])
    ensures SniMatchesAnySan(sni, sans) <==> SniMatchesAnySan(sni', sans')
  {
  }
}

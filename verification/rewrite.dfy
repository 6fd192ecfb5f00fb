/** rewriteURLs: every string leaf of a fetched document that points at one of the
    retired Vine CDN hosts is redirected to the S3 mirror. The full harvester and the
    fast harvester differ only in the guard that decides whether a string is looked
    at and in the order of the last two replacements; the guard is what makes their
    results differ. */
module Rewrite {
  import opened Text
  import opened Json

  const Mirror: string := "https://vines.s3.amazonaws.com"

  const HttpV: string := "http://v.cdn.vine.co"
  const HttpsV: string := "https://v.cdn.vine.co"
  const HttpMtc: string := "http://mtc.cdn.vine.co"
  const HttpsMtc: string := "https://mtc.cdn.vine.co"

  /** The full harvester's guard: any subdomain of cdn.vine.co. */
  const CdnSuffix: string := ".cdn.vine.co"
  /** The fast harvester's guard: the video CDN only. */
  const VideoCdn: string := "v.cdn.vine.co"

  /** No video-CDN prefix is left in `s`. */
  predicate NoVideoCdn(s: string) {
    !Contains(s, HttpV) && !Contains(s, HttpsV)
  }

  /** None of the four legacy prefixes is left in `s`. */
  predicate NoLegacy(s: string) {
    NoVideoCdn(s) && !Contains(s, HttpMtc) && !Contains(s, HttpsMtc)
  }

  /** The string case of rewriteURLs in the full harvester. */
  function FixFull(s: string): string {
    if Contains(s, CdnSuffix) then
      var s1 := ReplaceAll(s, HttpV, Mirror);
      var s2 := ReplaceAll(s1, HttpsV, Mirror);
      var s3 := ReplaceAll(s2, HttpMtc, Mirror);
      ReplaceAll(s3, HttpsMtc, Mirror)
    else s
  }

  /** The string case of rewriteURLs in the fast harvester. */
  function FixFast(s: string): string {
    if Contains(s, VideoCdn) then
      var s1 := ReplaceAll(s, HttpV, Mirror);
      var s2 := ReplaceAll(s1, HttpsV, Mirror);
      var s3 := ReplaceAll(s2, HttpsMtc, Mirror);
      ReplaceAll(s3, HttpMtc, Mirror)
    else s
  }

  /** rewriteURLs of the full harvester over a whole document. */
  function RewriteFull(v: Value): Value {
    MapStrings(v, FixFull)
  }

  /** rewriteURLs of the fast harvester over a whole document. */
  function RewriteFast(v: Value): Value {
    MapStrings(v, FixFast)
  }

  // ---------------------------------------------------------------------------
  // The mirror prefix never recreates a legacy prefix

  lemma MirrorIsSafe()
    ensures SafeReplacement(Mirror, HttpV) && SafeReplacement(Mirror, HttpsV)
    ensures SafeReplacement(Mirror, HttpMtc) && SafeReplacement(Mirror, HttpsMtc)
  {
    MirrorTail();
    assert Mirror[4] != HttpV[4];
    assert Mirror[4] != HttpMtc[4];
    assert Mirror[9] != HttpsV[9];
    assert Mirror[8] != HttpsMtc[8];
    forall j | 1 <= j < |HttpV| ensures HttpV[j] != 'h' {}
    forall j | 1 <= j < |HttpsV| ensures HttpsV[j] != 'h' {}
    forall j | 1 <= j < |HttpMtc| ensures HttpMtc[j] != 'h' {}
    forall j | 1 <= j < |HttpsMtc| ensures HttpsMtc[j] != 'h' {}
  }

  /** Only the first character of the mirror prefix is an 'h'. */
  lemma MirrorTail()
    ensures forall j :: 1 <= j < |Mirror| ==> Mirror[j] != 'h'
  {
  }

  /** The two mtc prefixes cannot overlap each other. */
  lemma MtcPrefixesSafe()
    ensures SafeReplacement(HttpMtc, HttpsMtc) && SafeReplacement(HttpsMtc, HttpMtc)
  {
    assert HttpMtc[4] != HttpsMtc[4];
  }

  /** Every legacy prefix contains each guard that selects it. */
  lemma GuardsCoverPrefixes(s: string)
    ensures !Contains(s, CdnSuffix) ==> NoLegacy(s)
    ensures !Contains(s, VideoCdn) ==> NoVideoCdn(s)
  {
    assert HttpV == "http://v" + CdnSuffix + "";
    assert HttpsV == "https://v" + CdnSuffix + "";
    assert HttpMtc == "http://mtc" + CdnSuffix + "";
    assert HttpsMtc == "https://mtc" + CdnSuffix + "";
    assert HttpV == "http://" + VideoCdn + "";
    assert HttpsV == "https://" + VideoCdn + "";
    if Contains(s, HttpV) {
      ContainsInfix(s, "http://v", CdnSuffix, "");
      ContainsInfix(s, "http://", VideoCdn, "");
    }
    if Contains(s, HttpsV) {
      ContainsInfix(s, "https://v", CdnSuffix, "");
      ContainsInfix(s, "https://", VideoCdn, "");
    }
    if Contains(s, HttpMtc) {
      ContainsInfix(s, "http://mtc", CdnSuffix, "");
    }
    if Contains(s, HttpsMtc) {
      ContainsInfix(s, "https://mtc", CdnSuffix, "");
    }
  }

  /** One replacement by the mirror removes its own pattern and creates none of the
      four legacy prefixes. */
  lemma MirrorStep(t: string, pat: string)
    requires pat == HttpV || pat == HttpsV || pat == HttpMtc || pat == HttpsMtc
    ensures !Contains(ReplaceAll(t, pat, Mirror), pat)
    ensures !Contains(t, HttpV) ==> !Contains(ReplaceAll(t, pat, Mirror), HttpV)
    ensures !Contains(t, HttpsV) ==> !Contains(ReplaceAll(t, pat, Mirror), HttpsV)
    ensures !Contains(t, HttpMtc) ==> !Contains(ReplaceAll(t, pat, Mirror), HttpMtc)
    ensures !Contains(t, HttpsMtc) ==> !Contains(ReplaceAll(t, pat, Mirror), HttpsMtc)
  {
    MirrorIsSafe();
    ReplaceEliminates(t, pat, Mirror);
    if !Contains(t, HttpV) {
      ReplaceKeepsAbsent(t, pat, Mirror, HttpV);
    }
    if !Contains(t, HttpsV) {
      ReplaceKeepsAbsent(t, pat, Mirror, HttpsV);
    }
    if !Contains(t, HttpMtc) {
      ReplaceKeepsAbsent(t, pat, Mirror, HttpMtc);
    }
    if !Contains(t, HttpsMtc) {
      ReplaceKeepsAbsent(t, pat, Mirror, HttpsMtc);
    }
  }

  // ---------------------------------------------------------------------------
  // The full variant

  /** After the full rewrite no legacy prefix is left in the string. */
  lemma FixFullCleans(s: string)
    ensures NoLegacy(FixFull(s))
  {
    if Contains(s, CdnSuffix) {
      var s1 := ReplaceAll(s, HttpV, Mirror);
      var s2 := ReplaceAll(s1, HttpsV, Mirror);
      var s3 := ReplaceAll(s2, HttpMtc, Mirror);
      MirrorStep(s, HttpV);
      MirrorStep(s1, HttpsV);
      MirrorStep(s2, HttpMtc);
      MirrorStep(s3, HttpsMtc);
    } else {
      GuardsCoverPrefixes(s);
    }
  }

  /** A string without legacy prefixes (a mirror URL in particular) is left alone. */
  lemma FixFullOfClean(s: string)
    requires NoLegacy(s)
    ensures FixFull(s) == s
  {
    ReplaceAbsent(s, HttpV, Mirror);
    ReplaceAbsent(s, HttpsV, Mirror);
    ReplaceAbsent(s, HttpMtc, Mirror);
    ReplaceAbsent(s, HttpsMtc, Mirror);
  }

  lemma FixFullIdempotent(s: string)
    ensures FixFull(FixFull(s)) == FixFull(s)
  {
    FixFullCleans(s);
    FixFullOfClean(FixFull(s));
  }

  /** Over a document: same shape, no legacy prefix in any string leaf. */
  lemma RewriteFullCleans(v: Value)
    ensures SameShape(v, RewriteFull(v))
    ensures AllStrings(RewriteFull(v), NoLegacy)
  {
    forall s: string ensures NoLegacy(FixFull(s)) {
      FixFullCleans(s);
    }
    MapStringsEstablishes(v, FixFull, NoLegacy);
  }

  /** A document whose strings hold no legacy prefix is returned unchanged. */
  lemma RewriteFullOfClean(v: Value)
    requires AllStrings(v, NoLegacy)
    ensures RewriteFull(v) == v
  {
    forall s: string | NoLegacy(s) ensures FixFull(s) == s {
      FixFullOfClean(s);
    }
    MapStringsIdentity(v, FixFull, NoLegacy);
  }

  /** Rewriting a profile that was already rewritten and saved changes nothing. */
  lemma RewriteFullIdempotent(v: Value)
    ensures RewriteFull(RewriteFull(v)) == RewriteFull(v)
  {
    forall s: string ensures FixFull(FixFull(s)) == FixFull(s) {
      FixFullIdempotent(s);
    }
    MapStringsIdempotent(v, FixFull);
  }

  // ---------------------------------------------------------------------------
  // The fast variant

  /** After the fast rewrite no video-CDN prefix is left; when the video host was
      present, the mtc prefixes are gone too. */
  lemma FixFastCleans(s: string)
    ensures NoVideoCdn(FixFast(s))
    ensures Contains(s, VideoCdn) ==> NoLegacy(FixFast(s))
  {
    if Contains(s, VideoCdn) {
      var s1 := ReplaceAll(s, HttpV, Mirror);
      var s2 := ReplaceAll(s1, HttpsV, Mirror);
      var s3 := ReplaceAll(s2, HttpsMtc, Mirror);
      MirrorStep(s, HttpV);
      MirrorStep(s1, HttpsV);
      MirrorStep(s2, HttpsMtc);
      MirrorStep(s3, HttpMtc);
    } else {
      GuardsCoverPrefixes(s);
    }
  }

  lemma FixFastOfClean(s: string)
    requires NoLegacy(s)
    ensures FixFast(s) == s
  {
    ReplaceAbsent(s, HttpV, Mirror);
    ReplaceAbsent(s, HttpsV, Mirror);
    ReplaceAbsent(s, HttpsMtc, Mirror);
    ReplaceAbsent(s, HttpMtc, Mirror);
  }

  lemma FixFastIdempotent(s: string)
    ensures FixFast(FixFast(s)) == FixFast(s)
  {
    FixFastCleans(s);
    if Contains(s, VideoCdn) {
      FixFastOfClean(FixFast(s));
    }
  }

  lemma RewriteFastCleans(v: Value)
    ensures SameShape(v, RewriteFast(v))
    ensures AllStrings(RewriteFast(v), NoVideoCdn)
  {
    forall s: string ensures NoVideoCdn(FixFast(s)) {
      FixFastCleans(s);
    }
    MapStringsEstablishes(v, FixFast, NoVideoCdn);
  }

  lemma RewriteFastIdempotent(v: Value)
    ensures RewriteFast(RewriteFast(v)) == RewriteFast(v)
  {
    forall s: string ensures FixFast(FixFast(s)) == FixFast(s) {
      FixFastIdempotent(s);
    }
    MapStringsIdempotent(v, FixFast);
  }

  // ---------------------------------------------------------------------------
  // Where the two variants part ways

  /** The two variants agree on every string that names the video host, and on every
      string that needs no rewriting. */
  lemma VariantsAgree(s: string)
    requires Contains(s, VideoCdn) || NoLegacy(s)
    ensures FixFast(s) == FixFull(s)
  {
    if NoLegacy(s) {
      FixFullOfClean(s);
      FixFastOfClean(s);
    } else {
      assert VideoCdn == "v" + CdnSuffix + "";
      ContainsInfix(s, "v", CdnSuffix, "");
      var s2 := ReplaceAll(ReplaceAll(s, HttpV, Mirror), HttpsV, Mirror);
      MirrorIsSafe();
      MtcPrefixesSafe();
      ReplaceCommute(s2, HttpMtc, HttpsMtc, Mirror);
    }
  }

  /** A string that names only the mtc host is rewritten by the full variant and
      kept as it is by the fast one. */
  lemma MtcOnlyDiffers(s: string)
    requires Contains(s, HttpsMtc) && !Contains(s, VideoCdn)
    ensures FixFast(s) == s
    ensures FixFull(s) != FixFast(s)
  {
    FixFullCleans(s);
  }

  /** Replacing any legacy prefix leaves a leading mirror prefix and a clean rest as
      they are. */
  lemma MirrorPrefixStays(tail: string, pat: string)
    requires NoLegacy(tail)
    requires pat == HttpV || pat == HttpsV || pat == HttpMtc || pat == HttpsMtc
    ensures ReplaceAll(Mirror + tail, pat, Mirror) == Mirror + tail
  {
    MirrorIsSafe();
    SafeSkip(Mirror, tail, pat, Mirror);
    ReplaceAbsent(tail, pat, Mirror);
  }

  lemma SchemesSafe()
    ensures SafeReplacement(HttpsV, HttpV)
  {
    assert HttpsV[4] != HttpV[4];
    forall j | 1 <= j < |HttpV| ensures HttpV[j] != 'h' {}
    forall j | 1 <= j < |HttpsV| ensures HttpsV[j] != 'h' {}
  }

  /** The last two steps of either variant, applied to a mirror URL with a clean path. */
  lemma MtcStepsStay(tail: string)
    requires NoLegacy(tail)
    ensures ReplaceAll(ReplaceAll(Mirror + tail, HttpMtc, Mirror), HttpsMtc, Mirror) == Mirror + tail
    ensures ReplaceAll(ReplaceAll(Mirror + tail, HttpsMtc, Mirror), HttpMtc, Mirror) == Mirror + tail
  {
    MirrorPrefixStays(tail, HttpMtc);
    MirrorPrefixStays(tail, HttpsMtc);
  }

  /** A URL on the video CDN mentions both the CDN suffix and the video host, so
      either variant rewrites it. */
  lemma VideoUrlNamesCdn(scheme: string, tail: string)
    requires scheme == "http://" || scheme == "https://"
    ensures Contains(scheme + VideoCdn + tail, CdnSuffix)
    ensures Contains(scheme + VideoCdn + tail, VideoCdn)
  {
    var s := scheme + VideoCdn + tail;
    assert s == scheme + "v" + CdnSuffix + tail;
    ContainsInfix(s, scheme + "v", CdnSuffix, tail);
    ContainsInfix(s, scheme, VideoCdn, tail);
  }

  /** Both variants finish a URL that the first two steps turned into a mirror URL. */
  lemma FixesOfMirror(s: string, tail: string)
    requires NoLegacy(tail) && Contains(s, CdnSuffix) && Contains(s, VideoCdn)
    requires ReplaceAll(ReplaceAll(s, HttpV, Mirror), HttpsV, Mirror) == Mirror + tail
    ensures FixFull(s) == Mirror + tail
    ensures FixFast(s) == Mirror + tail
  {
    MtcStepsStay(tail);
  }

  /** A plain-http URL on the video CDN moves to the mirror with its path kept,
      under both variants. */
  lemma HttpVideoUrlMoves(tail: string)
    requires NoLegacy(tail)
    ensures FixFull(HttpV + tail) == Mirror + tail
    ensures FixFast(HttpV + tail) == Mirror + tail
  {
    var s := HttpV + tail;
    assert s == "http://" + VideoCdn + tail;
    VideoUrlNamesCdn("http://", tail);
    assert ReplaceAll(s, HttpV, Mirror) == Mirror + tail by {
      assert "" + HttpV + tail == s;
      ReplaceSplice("", HttpV, tail, Mirror);
      ReplaceAbsent(tail, HttpV, Mirror);
    }
    MirrorPrefixStays(tail, HttpsV);
    FixesOfMirror(s, tail);
  }

  /** The same for an https URL on the video CDN. */
  lemma HttpsVideoUrlMoves(tail: string)
    requires NoLegacy(tail)
    ensures FixFull(HttpsV + tail) == Mirror + tail
    ensures FixFast(HttpsV + tail) == Mirror + tail
  {
    var s := HttpsV + tail;
    assert s == "https://" + VideoCdn + tail;
    VideoUrlNamesCdn("https://", tail);
    assert ReplaceAll(s, HttpV, Mirror) == s by {
      SchemesSafe();
      SafeSkip(HttpsV, tail, HttpV, Mirror);
      ReplaceAbsent(tail, HttpV, Mirror);
    }
    assert ReplaceAll(s, HttpsV, Mirror) == Mirror + tail by {
      assert "" + HttpsV + tail == s;
      ReplaceSplice("", HttpsV, tail, Mirror);
      ReplaceAbsent(tail, HttpsV, Mirror);
    }
    FixesOfMirror(s, tail);
  }
}

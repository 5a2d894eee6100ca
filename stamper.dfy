/**
  The front-matter stamper of `processFile`: split the translated text into
  a leading `---` ... `---` header and a trimmed body, then record the source
  digest as a `source_hash` line, replacing an existing marker, inserting one
  after the opening delimiter, or creating a header when there is none.
 */
module Stamper {
  import opened Wrappers
  import opened Strings
  import opened HashMarker
  import opened Staleness

  const Delim := "---"

  datatype FrontMatter = FrontMatter(header: string, body: string)

  /**
    The header is everything up to and including the first `---` found at
    index 3 or later (anywhere, not only at a line start); the body is the
    trimmed remainder. `indexOf` yields -1 or an index of at least 3, so the
    source's test `endOfYaml > 0` means "found".
   */
  function SplitFrontMatter(t: string): (r: Option<FrontMatter>)
    ensures r.Some? ==> StartsWith(r.value.header, Delim) && EndsWith(r.value.header, Delim)
    ensures r.Some? ==> |r.value.header| >= 2 * |Delim|
  {
    if StartsWith(t, Delim) then
      var endOfYaml := IndexOf(t, Delim, |Delim|);
      if endOfYaml > 0 then
        var header := t[..endOfYaml + |Delim|];
        assert header[..|Delim|] == t[..|Delim|];
        assert header[|header| - |Delim|..] == t[endOfYaml..endOfYaml + |Delim|];
        Some(FrontMatter(header, Trim(t[endOfYaml + |Delim|..])))
      else None
    else None
  }

  /** `s.replace(pat, rep)` with a string pattern: the first occurrence only. */
  function ReplaceLiteral(s: string, pat: string, rep: string): string {
    var p := IndexOf(s, pat, 0);
    if p < 0 then s else s[..p] + rep + s[p + |pat|..]
  }

  /**
    `yamlHeader.replace('---', '---\nsource_hash: ' + h)`: on a header, which
    starts with `---`, the marker line goes right after that opening `---`.
   */
  function InsertMarker(header: string, h: Digest): (r: string)
    ensures StartsWith(header, Delim) ==> r == Delim + "\n" + Marker(h) + header[|Delim|..]
    ensures !Contains(header, Delim) ==> r == header
  {
    assert StartsWith(header, Delim) ==> OccursAt(header, Delim, 0);
    assert header[..0] == [];
    ReplaceLiteral(header, Delim, Delim + "\n" + Marker(h))
  }

  /**
    The header after stamping: when the key is present, the leftmost marker is
    rewritten, and a key without a well-formed value leaves the header as it
    is; without the key, a marker line is inserted after the opening `---`.
   */
  function StampHeader(header: string, h: Digest): (r: string)
    ensures forall m :: IsLeftmostMatch(header, m) ==> r == header[..m.start] + Marker(h) + header[m.end..]
    ensures Contains(header, Key) && (forall m :: !MatchesAt(header, m)) ==> r == header
    ensures StartsWith(header, Delim) && !Contains(header, Key) ==> r == Delim + "\n" + Marker(h) + header[|Delim|..]
  {
    if Contains(header, Key) then ReplaceFirst(header, h) else InsertMarker(header, h)
  }

  /**
    The header created for a text without one: `---`, the marker line, `---`,
    each ending a line. Its marker reads back as the digest.
   */
  function NewHeader(h: Digest): (r: string)
    ensures FirstHash(r) == Some(h)
  {
    NewHeaderShape(h);
    (Delim + "\n") + Marker(h) + ("\n" + Delim + "\n")
  }

  lemma NewHeaderShape(h: Digest)
    ensures FirstHash((Delim + "\n") + Marker(h) + ("\n" + Delim + "\n")) == Some(h)
  {
    assert Key[0] !in Delim + "\n";
    MarkerAfterPrefix(Delim + "\n", h, "\n" + Delim + "\n");
  }

  /**
    The text `processFile` writes for translated text `t` and source digest
    `h`. Without a header the translated text is kept whole at the end; with
    one, the trimmed body follows the stamped header on a new line. In the
    shapes named by `MarkerSurvives`, the marker reads back as `h`.
   */
  function Stamp(t: string, h: Digest): (r: string)
    ensures SplitFrontMatter(t).None? ==> EndsWith(r, t)
    ensures SplitFrontMatter(t).Some? ==> EndsWith(r, "\n" + SplitFrontMatter(t).value.body)
    ensures MarkerSurvives(t) ==> FirstHash(r) == Some(h)
  {
    match SplitFrontMatter(t)
    case Some(fm) =>
      var stamped := StampHeader(fm.header, h);
      var out := stamped + "\n" + fm.body;
      assert out == stamped + ("\n" + fm.body);
      EndsWithAppended(stamped, "\n" + fm.body);
      if MarkerSurvives(t) then (HeaderStampCarriesDigest(fm.header, fm.body, h); out) else out
    case None =>
      EndsWithAppended(NewHeader(h), t);
      NewHeaderCarriesDigest(t, h);
      NewHeader(h) + t
  }

  // ---------------------------------------------------------------------------
  // segmentation

  /** There is no header exactly when the text does not start with `---` or has no later `---`. */
  lemma HeaderAbsentIff(t: string)
    ensures SplitFrontMatter(t).None? <==> !StartsWith(t, Delim) || forall p :: 3 <= p ==> !OccursAt(t, Delim, p)
  {
  }

  /** Without a header, a new one holding only the marker is put in front of the unmodified text. */
  lemma NoHeaderStamp(t: string, h: Digest)
    requires !StartsWith(t, Delim) || forall p :: 3 <= p ==> !OccursAt(t, Delim, p)
    ensures Stamp(t, h) == NewHeader(h) + t
    ensures EndsWith(Stamp(t, h), t)
  {
    HeaderAbsentIff(t);
    var out := Stamp(t, h);
    assert out[|out| - |t|..] == t;
  }

  /** The created header, written out. */
  lemma NewHeaderText(h: Digest)
    ensures NewHeader(h) == "---\nsource_hash: " + h + "\n---\n"
  {
    var open, close := Delim + "\n", "\n" + Delim + "\n";
    assert open + (Key + " ") == "---\nsource_hash: ";
    assert close == "\n---\n";
    ConcatAssoc(open, Key + " ", h);
  }

  /**
    With a header, the header is the prefix ending at the first `---` at index
    3 or later, the body is the trimmed rest, and the output is the stamped
    header, a newline and the body.
   */
  lemma HeaderSegmentation(t: string, e: nat, h: Digest)
    requires StartsWith(t, Delim)
    requires 3 <= e && OccursAt(t, Delim, e)
    requires forall p :: 3 <= p < e ==> !OccursAt(t, Delim, p)
    ensures SplitFrontMatter(t) == Some(FrontMatter(t[..e + 3], Trim(t[e + 3..])))
    ensures Stamp(t, h) == StampHeader(t[..e + 3], h) + "\n" + Trim(t[e + 3..])
  {
    assert IndexOf(t, Delim, 3) == e;
  }

  // ---------------------------------------------------------------------------
  // the three ways of stamping

  /** Insert case: the marker line goes right after the opening `---`; the rest of the header is untouched. */
  lemma InsertCase(header: string, h: Digest)
    requires StartsWith(header, Delim)
    requires !Contains(header, Key)
    ensures StampHeader(header, h) == "---\n" + Marker(h) + header[3..]
  {
    assert OccursAt(header, Delim, 0);
    assert IndexOf(header, Delim, 0) == 0;
    assert header[..0] == [] && Delim + "\n" == "---\n";
    assert InsertMarker(header, h) == [] + (Delim + "\n" + Marker(h)) + header[3..];
  }

  /** Re-stamping a header whose first marker already reads `source_hash: h` changes nothing. */
  lemma RestampHeaderIsIdentity(header: string, h: Digest, m: HashMatch)
    requires IsLeftmostMatch(header, m)
    requires header[m.start..m.end] == "source_hash: " + h
    ensures StampHeader(header, h) == header
  {
    RestampIsIdentity(header, h, m);
  }

  /**
    Stamping a header twice with the same digest is stamping it once, provided
    that, in the insert case, the character after the opening `---` is not a
    hex digit (which would otherwise extend the inserted value).
   */
  lemma StampHeaderIdempotent(header: string, h: Digest)
    requires StartsWith(header, Delim) && |header| > 3
    requires !Contains(header, Key) ==> !IsHexDigit(header[3])
    ensures StampHeader(StampHeader(header, h), h) == StampHeader(header, h)
  {
    if Contains(header, Key) {
      ReplaceFirstIdempotent(header, h);
      ReplacedKeepsKey(header, h);
    } else {
      InsertCase(header, h);
      InsertedMarkerIsRestampable(header[3..], h);
    }
  }

  /** Replacing keeps the key in the header. */
  lemma ReplacedKeepsKey(header: string, h: Digest)
    requires Contains(header, Key)
    ensures Contains(ReplaceFirst(header, h), Key)
  {
    match LeftmostMatch(header)
    case None =>
    case Some(m) =>
      LeftmostMatchIff(header, m);
      ReplacedMarkerMatches(header, h, m);
  }

  /** An inserted marker followed by a non-hex character is found and left alone by the next stamp. */
  lemma InsertedMarkerIsRestampable(rest: string, h: Digest)
    requires rest == [] || !IsHexDigit(rest[0])
    ensures StampHeader("---\n" + Marker(h) + rest, h) == "---\n" + Marker(h) + rest
  {
    var once := "---\n" + Marker(h) + rest;
    assert Key[0] !in "---\n";
    MarkerAfterPrefix("---\n", h, rest);
    var n := HashMatch(4, 4 + |Key| + 1, 4 + |Key| + 1 + |h|);
    assert once[n.start..n.end] == Marker(h);
    RestampIsIdentity(once, h, n);
  }

  // ---------------------------------------------------------------------------
  // round trip with the staleness oracle

  /**
    The cases in which the stamped text carries the digest as its first marker:
    no header; a header with a well-formed marker; or a header without the
    key whose opening `---` is not directly followed by a hex digit.
   */
  predicate MarkerSurvives(t: string) {
    match SplitFrontMatter(t)
    case None => true
    case Some(fm) =>
      if Contains(fm.header, Key) then LeftmostMatch(fm.header).Some? else !IsHexDigit(fm.header[3])
  }

  /** A replaced header, like every header, ends with the barrier `-`. */
  lemma ReplacedHeaderEndsWithBarrier(header: string, h: Digest, m: HashMatch)
    requires EndsWith(header, Delim)
    requires IsLeftmostMatch(header, m)
    ensures var out := ReplaceFirst(header, h); |out| > 0 && IsBarrier(out[|out| - 1])
  {
    assert header[|header| - 1] == Delim[2] == '-';
    assert !IsHexDigit(header[|header| - 1]);
    assert m.end < |header|;
    var out := ReplaceFirst(header, h);
    assert out == header[..m.start] + Marker(h) + header[m.end..];
    LastOfSplice(header, m.start, m.end, Marker(h));
    assert out[|out| - 1] == '-';
    DashIsBarrier();
  }

  lemma DashIsBarrier()
    ensures IsBarrier('-')
  {
    assert forall q :: 0 <= q < |Key| ==> Key[q] != '-';
  }

  /** Replacing `s[i..j]` with `j` short of the end keeps the last character. */
  lemma LastOfSplice(s: string, i: nat, j: nat, mid: string)
    requires i <= j < |s|
    ensures var t := s[..i] + mid + s[j..]; |t| > 0 && t[|t| - 1] == s[|s| - 1]
  {
  }

  /** A new header's marker is read back as the digest. */
  lemma NewHeaderCarriesDigest(t: string, h: Digest)
    ensures FirstHash(NewHeader(h) + t) == Some(h)
  {
    var open, close := Delim + "\n", "\n" + Delim + "\n";
    assert Key[0] !in open;
    ConcatAssoc(open + Marker(h), close, t);
    MarkerAfterPrefix(open, h, close + t);
  }

  /** An inserted marker not followed by a hex digit is read back as the digest. */
  lemma InsertedHeaderCarriesDigest(header: string, body: string, h: Digest)
    requires StartsWith(header, Delim) && |header| > 3
    requires !Contains(header, Key) && !IsHexDigit(header[3])
    ensures FirstHash(StampHeader(header, h) + "\n" + body) == Some(h)
  {
    InsertCase(header, h);
    assert Key[0] !in "---\n";
    var rest := header[3..] + "\n" + body;
    assert StampHeader(header, h) + "\n" + body == "---\n" + Marker(h) + rest;
    MarkerAfterPrefix("---\n", h, rest);
  }

  /** A replaced marker is read back as the digest, whatever body follows the header. */
  lemma ReplacedHeaderCarriesDigest(header: string, body: string, h: Digest)
    requires EndsWith(header, Delim)
    requires Contains(header, Key) && LeftmostMatch(header).Some?
    ensures FirstHash(StampHeader(header, h) + "\n" + body) == Some(h)
  {
    var m := LeftmostMatch(header).value;
    ReplacedCarriesDigest(header, h, m);
    ReplacedHeaderEndsWithBarrier(header, h, m);
    var a := ReplaceFirst(header, h);
    assert StampHeader(header, h) == a;
    ConcatAssoc(a, "\n", body);
    FirstHashBeforeBarrier(a, "\n" + body);
  }

  /** After replacing, the first marker of the header reads the digest. */
  lemma ReplacedCarriesDigest(header: string, h: Digest, m: HashMatch)
    requires IsLeftmostMatch(header, m)
    ensures FirstHash(ReplaceFirst(header, h)) == Some(h)
  {
    ReplacedIsLeftmost(header, h, m);
    CaptureIsDigest(header, h, m);
    var n := HashMatch(m.start, m.start + |Key| + 1, m.start + |Key| + 1 + |h|);
    FirstHashOfLeftmost(ReplaceFirst(header, h), n, h);
  }

  /** The capture of a replaced marker is the digest. */
  lemma CaptureIsDigest(header: string, h: Digest, m: HashMatch)
    requires IsLeftmostMatch(header, m)
    ensures var out := ReplaceFirst(header, h);
      m.start + |Key| + 1 + |h| <= |out| && out[m.start + |Key| + 1..m.start + |Key| + 1 + |h|] == h
  {
    MarkerMatches(header[..m.start], h, header[m.end..]);
  }

  /** A stamped header whose marker survives is read back as the digest, whatever body follows it. */
  lemma HeaderStampCarriesDigest(header: string, body: string, h: Digest)
    requires StartsWith(header, Delim) && EndsWith(header, Delim) && |header| > 3
    requires if Contains(header, Key) then LeftmostMatch(header).Some? else !IsHexDigit(header[3])
    ensures FirstHash(StampHeader(header, h) + "\n" + body) == Some(h)
  {
    if Contains(header, Key) {
      ReplacedHeaderCarriesDigest(header, body, h);
    } else {
      InsertedHeaderCarriesDigest(header, body, h);
    }
  }

  /** The oracle reports a freshly stamped artifact as up to date. */
  lemma StampedArtifactIsFresh(originalFile: string, t: string, h: Digest)
    requires MarkerSurvives(t)
    ensures CheckTranslation(originalFile, Some(Stamp(t, h)), h) == CheckResult(true, false, Paths.ArtifactPath(originalFile))
  {
  }

  /**
    When the opening `---` is directly followed by a hex digit and the header
    has no key, the inserted value runs into those digits: the artifact reads
    back a longer value and stays stale on every later run.
   */
  lemma InsertedMarkerAbsorbsHexDigits(originalFile: string, t: string, h: Digest)
    requires SplitFrontMatter(t).Some?
    requires !Contains(SplitFrontMatter(t).value.header, Key)
    requires IsHexDigit(SplitFrontMatter(t).value.header[3])
    ensures FirstHash(Stamp(t, h)).Some? && |FirstHash(Stamp(t, h)).value| > |h|
    ensures CheckTranslation(originalFile, Some(Stamp(t, h)), h).needsUpdate
  {
    var fm := SplitFrontMatter(t).value;
    InsertedHeaderAbsorbsHexDigits(fm.header, fm.body, h);
  }

  /** The header-level step of the previous lemma. */
  lemma InsertedHeaderAbsorbsHexDigits(header: string, body: string, h: Digest)
    requires StartsWith(header, Delim) && |header| > 3
    requires !Contains(header, Key) && IsHexDigit(header[3])
    ensures var s := StampHeader(header, h) + "\n" + body; FirstHash(s).Some? && |FirstHash(s).value| > |h|
  {
    InsertCase(header, h);
    var rest := header[3..] + "\n" + body;
    assert rest[0] == header[3];
    assert StampHeader(header, h) + "\n" + body == "---\n" + Marker(h) + rest;
    MarkerAbsorbsHexRun(h, rest);
  }

  /** A marker directly followed by a hex digit captures more than the digest. */
  lemma MarkerAbsorbsHexRun(h: Digest, rest: string)
    requires rest != [] && IsHexDigit(rest[0])
    ensures var s := "---\n" + Marker(h) + rest; FirstHash(s).Some? && |FirstHash(s).value| > |h|
  {
    var s := "---\n" + Marker(h) + rest;
    var d := 4 + |Key| + 1;
    assert s[4..4 + |Key|] == Key;
    assert s[4 + |Key|] == ' ';
    assert forall q :: d <= q < d + |h| ==> s[q] == h[q - d];
    assert s[d + |h|] == rest[0];
    var k := Span(s, d, IsHexDigit);
    assert k > d + |h|;
    var m := HashMatch(4, d, k);
    assert MatchesAt(s, m);
    assert Key[0] !in "---\n";
    forall m' | MatchesAt(s, m') ensures 4 <= m'.start {
      assert s[m'.start] == Key[0];
    }
    LeftmostMatchIff(s, m);
  }

  /**
    A header that names the key without a well-formed value is written back
    unchanged, so when the body has no marker either, the artifact has no
    marker at all and stays stale on every later run.
   */
  lemma UnmatchedKeyLeavesArtifactStale(originalFile: string, t: string, h: Digest)
    requires SplitFrontMatter(t).Some?
    requires Contains(SplitFrontMatter(t).value.header, Key)
    requires forall m :: !MatchesAt(SplitFrontMatter(t).value.header, m)
    requires forall m :: !MatchesAt(SplitFrontMatter(t).value.body, m)
    ensures FirstHash(Stamp(t, h)).None?
    ensures CheckTranslation(originalFile, Some(Stamp(t, h)), h).needsUpdate
  {
    var fm := SplitFrontMatter(t).value;
    UnmatchedHeaderLeavesNoMarker(fm.header, fm.body, h);
  }

  /** The header-level step of the previous lemma: nothing in header, newline or body forms a match. */
  lemma UnmatchedHeaderLeavesNoMarker(header: string, body: string, h: Digest)
    requires EndsWith(header, Delim)
    requires Contains(header, Key)
    requires forall m :: !MatchesAt(header, m)
    requires forall m :: !MatchesAt(body, m)
    ensures forall m :: !MatchesAt(StampHeader(header, h) + "\n" + body, m)
  {
    assert StampHeader(header, h) + "\n" + body == header + ("\n" + body);
    assert header[|header| - 1] == '-';
    NoMatchAfterOtherChar('\n', body);
    NoMatchAcrossBarrier(header, "\n" + body);
  }
}

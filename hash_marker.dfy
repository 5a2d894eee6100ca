/**
  The provenance marker: the regular expression `source_hash:\s*([a-f0-9]+)`,
  its leftmost match as `String.prototype.match` finds it (without the `g`
  flag), the captured hex run, and `replace` of that first match.
 */
module HashMarker {
  import opened Wrappers
  import opened Strings

  const Key := "source_hash:"

  /** The class `[a-f0-9]`. */
  predicate IsHexDigit(c: char) {
    ('0' <= c <= '9') || ('a' <= c <= 'f')
  }

  /** A non-empty lowercase hex string, which is what a SHA-256 `digest('hex')` yields. */
  predicate IsDigest(s: string) {
    |s| > 0 && forall q :: 0 <= q < |s| ==> IsHexDigit(s[q])
  }

  type Digest = s: string | IsDigest(s) witness "0"

  /** A match of the regex: it starts at `start`, the capture group covers `[digits, end)`. */
  datatype HashMatch = HashMatch(start: nat, digits: nat, end: nat)

  /**
    The regex matches `s` at `m.start` with the greedy choices: `\s*` takes
    whitespace up to `m.digits`, and `[a-f0-9]+` takes a non-empty hex run that
    cannot be extended. (`\s*` is maximal automatically: a hex digit is not
    whitespace.)
   */
  predicate MatchesAt(s: string, m: HashMatch) {
    && OccursAt(s, Key, m.start)
    && m.start + |Key| <= m.digits < m.end <= |s|
    && (forall q :: m.start + |Key| <= q < m.digits ==> IsJsSpace(s[q]))
    && (forall q :: m.digits <= q < m.end ==> IsHexDigit(s[q]))
    && (m.end == |s| || !IsHexDigit(s[m.end]))
  }

  /** `m` is the match `String.prototype.match` reports: no match starts further left. */
  ghost predicate IsLeftmostMatch(s: string, m: HashMatch) {
    MatchesAt(s, m) && forall m' :: MatchesAt(s, m') ==> m.start <= m'.start
  }

  /** The backtracking matcher anchored at position `i`. */
  function MatchAt(s: string, i: nat): (r: Option<HashMatch>)
    requires i <= |s|
    ensures r.Some? ==> r.value.start == i && MatchesAt(s, r.value)
  {
    if OccursAt(s, Key, i) then
      var j := Span(s, i + |Key|, IsJsSpace);
      var k := Span(s, j, IsHexDigit);
      if j < k then Some(HashMatch(i, j, k)) else None
    else None
  }

  /** The anchored matcher finds every match at `i`: the greedy match at a position is unique. */
  lemma MatchAtComplete(s: string, m: HashMatch)
    requires MatchesAt(s, m)
    ensures MatchAt(s, m.start) == Some(m)
  {
    assert !IsJsSpace(s[m.digits]);
    SpanUnique(s, m.start + |Key|, IsJsSpace, m.digits);
    SpanUnique(s, m.digits, IsHexDigit, m.end);
  }

  /** The search loop of `match`: try each start position from `i` on. */
  function FirstMatchFrom(s: string, i: nat): (r: Option<HashMatch>)
    requires i <= |s|
    ensures r.Some? ==> MatchesAt(s, r.value) && i <= r.value.start
    decreases |s| - i
  {
    match MatchAt(s, i)
    case Some(m) => Some(m)
    case None => if i == |s| then None else FirstMatchFrom(s, i + 1)
  }

  /**
    `s.match(/source_hash:\s*([a-f0-9]+)/)`, as the positions of the match: a
    match with no match to its left, or `null` when the regex matches nowhere.
   */
  function LeftmostMatch(s: string): (r: Option<HashMatch>)
    ensures r.Some? ==> IsLeftmostMatch(s, r.value)
    ensures r.None? <==> forall m :: !MatchesAt(s, m)
  {
    FirstMatchFromCorrect(s, 0);
    FirstMatchFrom(s, 0)
  }

  lemma {:induction false} FirstMatchFromCorrect(s: string, i: nat)
    requires i <= |s|
    ensures FirstMatchFrom(s, i).Some? ==>
      forall m' :: MatchesAt(s, m') && i <= m'.start ==> FirstMatchFrom(s, i).value.start <= m'.start
    ensures FirstMatchFrom(s, i).None? ==> forall m' :: MatchesAt(s, m') ==> m'.start < i
    decreases |s| - i
  {
    forall m' | MatchesAt(s, m') && m'.start == i
      ensures MatchAt(s, i) == Some(m')
    {
      MatchAtComplete(s, m');
    }
    if MatchAt(s, i).None? && i < |s| {
      FirstMatchFromCorrect(s, i + 1);
    }
  }

  /** The leftmost search is exactly "a match with no match to its left". */
  lemma LeftmostMatchIff(s: string, m: HashMatch)
    ensures LeftmostMatch(s) == Some(m) <==> IsLeftmostMatch(s, m)
  {
    FirstMatchFromCorrect(s, 0);
    if IsLeftmostMatch(s, m) {
      var m0 := LeftmostMatch(s).value;
      assert m0.start == m.start;
      MatchAtComplete(s, m);
      MatchAtComplete(s, m0);
    }
  }

  /** `hashMatch[1]`: the captured hex run of the leftmost match, if any. */
  function FirstHash(s: string): (r: Option<string>)
    ensures r.Some? ==> IsDigest(r.value)
  {
    match LeftmostMatch(s)
    case Some(m) => Some(s[m.digits..m.end])
    case None => None
  }

  /** The marker text that `replace` writes. */
  function Marker(h: Digest): string {
    Key + " " + h
  }

  /**
    `s.replace(/source_hash:\s*[a-f0-9]+/, 'source_hash: ' + h)`: the leftmost
    match, and nothing else, becomes `source_hash: h`; without a match the
    text is returned as it is.
   */
  function ReplaceFirst(s: string, h: Digest): (r: string)
    ensures forall m :: IsLeftmostMatch(s, m) ==> r == s[..m.start] + Marker(h) + s[m.end..]
    ensures (forall m :: !MatchesAt(s, m)) ==> r == s
  {
    match LeftmostMatch(s)
    case Some(m) =>
      OnlyLeftmost(s, m);
      s[..m.start] + Marker(h) + s[m.end..]
    case None => s
  }

  /** Two leftmost matches are the same match. */
  lemma OnlyLeftmost(s: string, m: HashMatch)
    requires IsLeftmostMatch(s, m)
    ensures forall m' :: IsLeftmostMatch(s, m') ==> m' == m
  {
    forall m' | IsLeftmostMatch(s, m') ensures m' == m {
      MatchAtComplete(s, m);
      MatchAtComplete(s, m');
    }
  }

  // ---------------------------------------------------------------------------
  // what `replace` does to the match, and where the match lies after it

  /** Two occurrences of the key cannot overlap. */
  lemma KeyDoesNotOverlap(t: string, a: nat, b: nat)
    requires a < b
    requires OccursAt(t, Key, a) && OccursAt(t, Key, b)
    ensures a + |Key| <= b
  {
    assert forall q :: a <= q < a + |Key| ==> t[q] == Key[q - a];
    assert t[b] == 's' && t[b + 1] == 'o';
  }

  /**
    If `t` agrees with `s` up to the end of a key both hold at `i`, a match of
    `t` that starts before `i` lies wholly before `i` and is a match of `s`.
   */
  lemma MatchBeforeSharedKey(s: string, t: string, i: nat, m: HashMatch)
    requires i + |Key| <= |s| && i + |Key| <= |t|
    requires forall q :: 0 <= q < i + |Key| ==> s[q] == t[q]
    requires OccursAt(t, Key, i)
    requires MatchesAt(t, m) && m.start < i
    ensures MatchesAt(s, m)
  {
    KeyDoesNotOverlap(t, m.start, i);
    assert t[i] == 's';
    assert !IsJsSpace(t[i]) && !IsHexDigit(t[i]);
    assert m.digits <= i;
    assert m.end <= i;
    assert s[m.start..m.start + |Key|] == t[m.start..m.start + |Key|];
  }

  /** `source_hash: h` followed by a non-hex character (or the end) is a match capturing `h`. */
  lemma MarkerMatches(pre: string, h: Digest, rest: string)
    requires rest == [] || !IsHexDigit(rest[0])
    ensures MatchesAt(pre + Marker(h) + rest, HashMatch(|pre|, |pre| + |Key| + 1, |pre| + |Key| + 1 + |h|))
    ensures var t := pre + Marker(h) + rest; t[|pre| + |Key| + 1..|pre| + |Key| + 1 + |h|] == h
  {
    var t := pre + (Key + " " + h) + rest;
    var p := |pre|;
    var n := HashMatch(p, p + |Key| + 1, p + |Key| + 1 + |h|);
    assert t[p..p + |Key|] == Key;
    assert t[p + |Key|] == ' ';
    assert forall q :: 0 <= q < |h| ==> t[p + |Key| + 1 + q] == h[q];
    assert t[n.end..] == rest;
    assert t[n.digits..n.end] == h;
  }

  /** After `replace`, the text holds the marker at the old match's start, followed by what followed the old match. */
  lemma ReplacedMarkerMatches(s: string, h: Digest, m: HashMatch)
    requires IsLeftmostMatch(s, m)
    ensures MatchesAt(ReplaceFirst(s, h), HashMatch(m.start, m.start + |Key| + 1, m.start + |Key| + 1 + |h|))
  {
    var rest := s[m.end..];
    assert rest == [] || rest[0] == s[m.end];
    MarkerMatches(s[..m.start], h, rest);
  }

  /** `replace` keeps everything before the end of the leftmost key. */
  lemma ReplacedAgreesBeforeKey(s: string, h: Digest, m: HashMatch)
    requires IsLeftmostMatch(s, m)
    ensures |ReplaceFirst(s, h)| >= m.start + |Key|
    ensures forall q :: 0 <= q < m.start + |Key| ==> s[q] == ReplaceFirst(s, h)[q]
  {
    assert Marker(h)[..|Key|] == Key;
    KeyPrefixAgrees(s, m.start, Marker(h), s[m.end..]);
  }

  /** Putting a text that starts with the key in place of a key occurrence keeps everything up to the key's end. */
  lemma KeyPrefixAgrees(s: string, i: nat, mk: string, rest: string)
    requires OccursAt(s, Key, i)
    requires |Key| <= |mk| && mk[..|Key|] == Key
    ensures var t := s[..i] + mk + rest; |t| >= i + |Key| && forall q :: 0 <= q < i + |Key| ==> s[q] == t[q]
  {
    var t := s[..i] + mk + rest;
    forall q | 0 <= q < i + |Key| ensures s[q] == t[q] {
      if i <= q {
        assert s[q] == s[i..i + |Key|][q - i];
        assert t[q] == mk[q - i];
      }
    }
  }

  /** The marker `replace` writes is the leftmost match of the result, and it captures exactly the digest. */
  lemma ReplacedIsLeftmost(s: string, h: Digest, m: HashMatch)
    requires IsLeftmostMatch(s, m)
    ensures IsLeftmostMatch(ReplaceFirst(s, h), HashMatch(m.start, m.start + |Key| + 1, m.start + |Key| + 1 + |h|))
  {
    ReplacedMarkerMatches(s, h, m);
    ReplacedAgreesBeforeKey(s, h, m);
    var t := ReplaceFirst(s, h);
    forall m' | MatchesAt(t, m') ensures m.start <= m'.start {
      if m'.start < m.start {
        MatchBeforeSharedKey(s, t, m.start, m');
      }
    }
  }

  /** Rewriting a marker that already reads `source_hash: h` gives back the same text. */
  lemma RestampIsIdentity(s: string, h: Digest, m: HashMatch)
    requires IsLeftmostMatch(s, m)
    requires s[m.start..m.end] == Marker(h)
    ensures ReplaceFirst(s, h) == s
  {
    Reassemble(s, m.start, m.end);
  }

  lemma Reassemble(s: string, i: nat, j: nat)
    requires i <= j <= |s|
    ensures s[..i] + s[i..j] + s[j..] == s
  {
  }

  /** `match` reports the leftmost match, and `hashMatch[1]` is its capture. */
  lemma FirstHashOfLeftmost(s: string, m: HashMatch, v: string)
    requires IsLeftmostMatch(s, m) && s[m.digits..m.end] == v
    ensures FirstHash(s) == Some(v)
  {
    LeftmostMatchIff(s, m);
  }

  /** `replace` with the same digest is idempotent. */
  lemma ReplaceFirstIdempotent(s: string, h: Digest)
    ensures ReplaceFirst(ReplaceFirst(s, h), h) == ReplaceFirst(s, h)
  {
    match LeftmostMatch(s)
    case None =>
    case Some(m) =>
      LeftmostMatchIff(s, m);
      ReplacedIsLeftmost(s, h, m);
      var t := ReplaceFirst(s, h);
      var n := HashMatch(m.start, m.start + |Key| + 1, m.start + |Key| + 1 + |h|);
      assert t[n.start..n.end] == Marker(h);
      RestampIsIdentity(t, h, n);
  }

  /**
    A marker written after a prefix that holds no `s` (so no key can start in
    it) and followed by a non-hex character is the leftmost match, and its
    capture is the digest.
   */
  lemma MarkerAfterPrefix(pre: string, h: Digest, rest: string)
    requires Key[0] !in pre
    requires rest == [] || !IsHexDigit(rest[0])
    ensures IsLeftmostMatch(pre + Marker(h) + rest, HashMatch(|pre|, |pre| + |Key| + 1, |pre| + |Key| + 1 + |h|))
    ensures FirstHash(pre + Marker(h) + rest) == Some(h)
  {
    MarkerMatches(pre, h, rest);
    var t := pre + Marker(h) + rest;
    var p := |pre|;
    var n := HashMatch(p, p + |Key| + 1, p + |Key| + 1 + |h|);
    forall m' | MatchesAt(t, m') ensures p <= m'.start {
      assert t[m'.start] == Key[0];
    }
    LeftmostMatchIff(t, n);
  }

  /** A character at which no key, whitespace run or hex run can pass. */
  predicate IsBarrier(c: char) {
    !IsHexDigit(c) && !IsJsSpace(c) && c !in Key
  }

  /** A match of `a + b` that starts inside `a` stays inside `a` when `a` ends with a barrier. */
  lemma MatchStaysBeforeBarrier(a: string, b: string, m: HashMatch)
    requires |a| > 0 && IsBarrier(a[|a| - 1])
    requires MatchesAt(a + b, m) && m.start < |a|
    ensures MatchesAt(a, m)
  {
    var t := a + b;
    var z := |a| - 1;
    assert forall q :: 0 <= q < |a| ==> t[q] == a[q];
    assert forall q :: m.start <= q < m.start + |Key| ==> t[q] == Key[q - m.start];
    assert m.start + |Key| <= z;
    assert m.digits <= z;
    assert m.end <= z;
    assert t[m.start..m.start + |Key|] == a[m.start..m.start + |Key|];
  }

  /** Text appended after a barrier does not change the leftmost match of what precedes it. */
  lemma LeftmostBeforeBarrier(a: string, b: string, m: HashMatch)
    requires |a| > 0 && IsBarrier(a[|a| - 1])
    requires IsLeftmostMatch(a, m)
    ensures IsLeftmostMatch(a + b, m)
  {
    var t := a + b;
    assert !IsHexDigit(a[|a| - 1]);
    assert m.end < |a|;
    assert forall q :: 0 <= q < |a| ==> t[q] == a[q];
    assert t[m.start..m.start + |Key|] == a[m.start..m.start + |Key|];
    assert MatchesAt(t, m);
    forall m' | MatchesAt(t, m') ensures m.start <= m'.start {
      if m'.start < |a| {
        MatchStaysBeforeBarrier(a, b, m');
      }
    }
  }

  /** A shifted copy of a match: what a match of `a + b` beyond `a` is in `b`. */
  lemma MatchInSuffix(a: string, b: string, m: HashMatch)
    requires MatchesAt(a + b, m) && m.start >= |a|
    ensures MatchesAt(b, HashMatch(m.start - |a|, m.digits - |a|, m.end - |a|))
  {
    var t := a + b;
    assert forall q :: 0 <= q < |b| ==> b[q] == t[q + |a|];
    assert b[m.start - |a|..m.start - |a| + |Key|] == t[m.start..m.start + |Key|];
  }

  /** Text appended after a barrier does not change the marker read from what precedes it. */
  lemma FirstHashBeforeBarrier(a: string, b: string)
    requires |a| > 0 && IsBarrier(a[|a| - 1])
    requires FirstHash(a).Some?
    ensures FirstHash(a + b) == FirstHash(a)
  {
    var m := LeftmostMatch(a).value;
    LeftmostMatchIff(a, m);
    LeftmostBeforeBarrier(a, b, m);
    LeftmostMatchIff(a + b, m);
    assert (a + b)[m.digits..m.end] == a[m.digits..m.end];
  }

  /** Two texts without a match, joined after a barrier, have no match either. */
  lemma NoMatchAcrossBarrier(a: string, b: string)
    requires |a| > 0 && IsBarrier(a[|a| - 1])
    requires forall m :: !MatchesAt(a, m)
    requires forall m :: !MatchesAt(b, m)
    ensures forall m :: !MatchesAt(a + b, m)
  {
    forall m | MatchesAt(a + b, m) ensures false {
      if m.start < |a| {
        MatchStaysBeforeBarrier(a, b, m);
      } else {
        MatchInSuffix(a, b, m);
      }
    }
  }

  /** A character other than the key's first one, put in front, creates no match. */
  lemma NoMatchAfterOtherChar(c: char, b: string)
    requires c != Key[0]
    requires forall m :: !MatchesAt(b, m)
    ensures forall m :: !MatchesAt([c] + b, m)
  {
    forall m | MatchesAt([c] + b, m) ensures false {
      assert ([c] + b)[m.start] == Key[0];
      MatchInSuffix([c], b, m);
    }
  }
}

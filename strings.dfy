/**
  The JavaScript string operations the translation script relies on
  (`startsWith`, `endsWith`, `indexOf`, `includes`, `split`, `trim`),
  stated over `string`, a sequence of code points.
 */
module Strings {

  /** `s.startsWith(prefix)`: the first characters of `s` are those of `prefix`. */
  predicate StartsWith(s: string, prefix: string): (r: bool)
    ensures r <==> |prefix| <= |s| && forall i :: 0 <= i < |prefix| ==> s[i] == prefix[i]
  {
    |prefix| <= |s| && s[..|prefix|] == prefix
  }

  /** `s.endsWith(suffix)`: the last characters of `s` are those of `suffix`. */
  predicate EndsWith(s: string, suffix: string): (r: bool)
    ensures r <==> |suffix| <= |s| && forall i :: 0 <= i < |suffix| ==> s[|s| - |suffix| + i] == suffix[i]
  {
    |suffix| <= |s| && s[|s| - |suffix|..] == suffix
  }

  lemma ConcatAssoc(a: string, b: string, c: string)
    ensures a + (b + c) == (a + b) + c
  {
  }

  lemma EndsWithAppended(x: string, y: string)
    ensures EndsWith(x + y, y)
  {
    assert (x + y)[|x|..] == y;
  }

  /** `pat` occurs in `s` starting at position `p`. */
  predicate OccursAt(s: string, pat: string, p: nat) {
    p + |pat| <= |s| && s[p..p + |pat|] == pat
  }

  /** The position at which `s.indexOf(pat, from)` starts its search. */
  function SearchStart(s: string, from: nat): nat {
    if from > |s| then |s| else from
  }

  /** `s.indexOf(pat, from)`: the first occurrence at or after the (clamped) start, or -1. */
  function IndexOf(s: string, pat: string, from: nat): (r: int)
    ensures r == -1 || (SearchStart(s, from) <= r && OccursAt(s, pat, r))
    ensures forall p :: SearchStart(s, from) <= p && (r == -1 || p < r) ==> !OccursAt(s, pat, p)
  {
    SearchFrom(s, pat, SearchStart(s, from))
  }

  function SearchFrom(s: string, pat: string, start: nat): (r: int)
    requires start <= |s|
    ensures r == -1 || (start <= r && OccursAt(s, pat, r))
    ensures forall p :: start <= p && (r == -1 || p < r) ==> !OccursAt(s, pat, p)
    decreases |s| - start
  {
    if OccursAt(s, pat, start) then start
    else if start == |s| then -1
    else SearchFrom(s, pat, start + 1)
  }

  /** `s.includes(pat)`: `pat` occurs somewhere in `s`. */
  predicate Contains(s: string, pat: string): (r: bool)
    ensures r <==> exists p :: OccursAt(s, pat, p)
  {
    var i := IndexOf(s, pat, 0);
    assert i >= 0 ==> OccursAt(s, pat, i);
    i >= 0
  }

  // ---------------------------------------------------------------------------
  // split with a one-character separator, and its inverse

  /** `s.split(sep)` for a one-character separator: the maximal separator-free pieces, in order. */
  function Split(s: string, sep: char): (parts: seq<string>)
    ensures |parts| >= 1
    ensures forall k :: 0 <= k < |parts| ==> sep !in parts[k]
  {
    if s == [] then [[]]
    else
      var rest := Split(s[1..], sep);
      if s[0] == sep then [[]] + rest
      else [[s[0]] + rest[0]] + rest[1..]
  }

  /** `parts.join(sep)` */
  function Join(parts: seq<string>, sep: char): string {
    if |parts| == 0 then []
    else if |parts| == 1 then parts[0]
    else parts[0] + [sep] + Join(parts[1..], sep)
  }

  /** Joining the pieces of a split gives back the original string. */
  lemma {:induction false} JoinSplit(s: string, sep: char)
    ensures Join(Split(s, sep), sep) == s
  {
    if s != [] {
      var rest := Split(s[1..], sep);
      JoinSplit(s[1..], sep);
      if s[0] == sep {
        assert Join([[]] + rest, sep) == [] + [sep] + Join(rest, sep);
      } else if |rest| == 1 {
        assert Split(s, sep) == [[s[0]] + rest[0]];
      } else {
        var parts := Split(s, sep);
        assert parts[1..] == rest[1..];
        assert Join(rest, sep) == rest[0] + [sep] + Join(rest[1..], sep);
        assert Join(parts, sep) == [s[0]] + rest[0] + [sep] + Join(rest[1..], sep);
      }
    }
  }

  lemma {:induction false} SplitOfSeparatorFree(a: string, sep: char)
    requires sep !in a
    ensures Split(a, sep) == [a]
  {
    if a != [] {
      SplitOfSeparatorFree(a[1..], sep);
      assert [a[0]] + a[1..] == a;
    }
  }

  lemma {:induction false} SplitAfterPiece(a: string, sep: char, b: string)
    requires sep !in a
    ensures Split(a + [sep] + b, sep) == [a] + Split(b, sep)
  {
    if a == [] {
      assert a + [sep] + b == [sep] + b;
      assert ([sep] + b)[1..] == b;
    } else {
      var s := a + [sep] + b;
      assert s[1..] == a[1..] + [sep] + b;
      SplitAfterPiece(a[1..], sep, b);
      assert [a[0]] + a[1..] == a;
    }
  }

  /** Splitting at one separator splits each side: the separator ends one piece and starts the next. */
  lemma {:induction false} SplitAround(a: string, sep: char, b: string)
    ensures Split(a + [sep] + b, sep) == Split(a, sep) + Split(b, sep)
  {
    var s := a + [sep] + b;
    if a == [] {
      assert s == [sep] + b && s[1..] == b;
    } else {
      assert s[0] == a[0] && s[1..] == a[1..] + [sep] + b;
      SplitAround(a[1..], sep, b);
      var ra := Split(a[1..], sep);
      var rest := Split(s[1..], sep);
      assert rest == ra + Split(b, sep);
      if a[0] != sep {
        assert rest[0] == ra[0] && rest[1..] == ra[1..] + Split(b, sep);
      }
    }
  }

  /** A string holding the separator splits into at least two pieces. */
  lemma SeparatorGivesPieces(s: string, sep: char)
    requires sep in s
    ensures |Split(s, sep)| >= 2
  {
    var i :| 0 <= i < |s| && s[i] == sep;
    assert s == s[..i] + [sep] + s[i + 1..];
    SplitAround(s[..i], sep, s[i + 1..]);
  }

  /** Splitting a join of separator-free pieces gives back the pieces. */
  lemma {:induction false} SplitJoin(parts: seq<string>, sep: char)
    requires |parts| >= 1
    requires forall k :: 0 <= k < |parts| ==> sep !in parts[k]
    ensures Split(Join(parts, sep), sep) == parts
  {
    if |parts| == 1 {
      SplitOfSeparatorFree(parts[0], sep);
    } else {
      SplitJoin(parts[1..], sep);
      SplitAfterPiece(parts[0], sep, Join(parts[1..], sep));
      assert [parts[0]] + parts[1..] == parts;
    }
  }

  // ---------------------------------------------------------------------------
  // whitespace, spans and trim

  /**
    The characters matched by the regex class `\s` and removed by `trim()`:
    ECMAScript's WhiteSpace and LineTerminator code points.
   */
  predicate IsJsSpace(c: char) {
    || c == '\t' || c == '\n' || c == '\U{B}' || c == '\U{C}' || c == '\r'
    || c == ' ' || c == '\U{A0}' || c == '\U{1680}'
    || ('\U{2000}' <= c <= '\U{200A}')
    || c == '\U{2028}' || c == '\U{2029}' || c == '\U{202F}' || c == '\U{205F}'
    || c == '\U{3000}' || c == '\U{FEFF}'
  }

  /** The end of the longest run of characters satisfying `p` that starts at `from`. */
  function Span(s: string, from: nat, p: char -> bool): (r: nat)
    requires from <= |s|
    ensures from <= r <= |s|
    ensures forall q :: from <= q < r ==> p(s[q])
    ensures r == |s| || !p(s[r])
    decreases |s| - from
  {
    if from == |s| || !p(s[from]) then from else Span(s, from + 1, p)
  }

  /** A maximal run is unique: any run that cannot be extended ends where `Span` ends. */
  lemma SpanUnique(s: string, from: nat, p: char -> bool, r: nat)
    requires from <= r <= |s|
    requires forall q :: from <= q < r ==> p(s[q])
    requires r == |s| || !p(s[r])
    ensures Span(s, from, p) == r
  {
  }

  /** The start of the longest run of characters satisfying `p` that ends at `hi`, not going below `lo`. */
  function BackSpan(s: string, lo: nat, hi: nat, p: char -> bool): (r: nat)
    requires lo <= hi <= |s|
    ensures lo <= r <= hi
    ensures forall q :: r <= q < hi ==> p(s[q])
    ensures r == lo || !p(s[r - 1])
    decreases hi
  {
    if hi == lo || !p(s[hi - 1]) then hi else BackSpan(s, lo, hi - 1, p)
  }

  lemma BackSpanUnique(s: string, lo: nat, hi: nat, p: char -> bool, r: nat)
    requires lo <= r <= hi <= |s|
    requires forall q :: r <= q < hi ==> p(s[q])
    requires r == lo || !p(s[r - 1])
    ensures BackSpan(s, lo, hi, p) == r
  {
  }

  /** `s[a..b]` is what remains of `s` once its leading and trailing whitespace is removed. */
  predicate IsTrimOf(s: string, a: nat, b: nat) {
    && a <= b <= |s|
    && (forall q :: 0 <= q < a ==> IsJsSpace(s[q]))
    && (forall q :: b <= q < |s| ==> IsJsSpace(s[q]))
    && (a < b ==> !IsJsSpace(s[a]) && !IsJsSpace(s[b - 1]))
  }

  function TrimStart(s: string): (a: nat)
    ensures a <= |s|
  {
    Span(s, 0, IsJsSpace)
  }

  function TrimEnd(s: string): (b: nat)
    ensures TrimStart(s) <= b <= |s|
  {
    BackSpan(s, TrimStart(s), |s|, IsJsSpace)
  }

  /**
    `s.trim()`: what remains neither starts nor ends with whitespace, and it is
    empty exactly when `s` is all whitespace.
   */
  function Trim(s: string): (r: string)
    ensures |r| <= |s|
    ensures r == [] || (!IsJsSpace(r[0]) && !IsJsSpace(r[|r| - 1]))
    ensures r == [] <==> forall q :: 0 <= q < |s| ==> IsJsSpace(s[q])
  {
    TrimSound(s);
    var a, b := TrimStart(s), TrimEnd(s);
    s[a..b]
  }

  /** `trim()` removes exactly the leading and trailing whitespace. */
  lemma TrimSound(s: string)
    ensures IsTrimOf(s, TrimStart(s), TrimEnd(s))
  {
  }

  /** Any cut that removes only whitespace and leaves non-whitespace at both ends gives `trim()`'s result. */
  lemma TrimUnique(s: string, a: nat, b: nat)
    requires IsTrimOf(s, a, b)
    ensures Trim(s) == s[a..b]
  {
    if a < b {
      SpanUnique(s, 0, IsJsSpace, a);
      BackSpanUnique(s, a, |s|, IsJsSpace, b);
    } else {
      assert forall q :: 0 <= q < |s| ==> IsJsSpace(s[q]) by {
        forall q | 0 <= q < |s| ensures IsJsSpace(s[q]) {
          if q < a { } else { assert b <= q; }
        }
      }
      SpanUnique(s, 0, IsJsSpace, |s|);
    }
  }

  /** Trimming twice is trimming once. */
  lemma TrimIdempotent(s: string)
    ensures Trim(Trim(s)) == Trim(s)
  {
    TrimSound(s);
    var r := Trim(s);
    var a := TrimStart(s);
    assert forall q :: 0 <= q < |r| ==> r[q] == s[a + q];
    TrimUnique(r, 0, |r|);
  }
}

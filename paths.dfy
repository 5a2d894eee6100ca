/**
  The POSIX `path` operations the script uses (`basename`, `dirname`, `join`)
  and the derivation of a source file's translation artifact path.
  Paths are the normalised ones a glob over a normalised root yields.
 */
module Paths {
  import opened Strings

  const Separator := '/'
  const MdExt := ".md"
  const TargetLang := "en"
  /** The language tag `.en` that the artifact's name adds before `.md`. */
  const LangTag := "." + TargetLang
  /** What `${basename}.${TARGET_LANG}.md` appends to the stem. */
  const ArtifactSuffix := LangTag + MdExt

  /** The position of the last `c` in `s`, or -1. */
  function LastIndexOf(s: string, c: char): (r: int)
    ensures -1 <= r < |s|
    ensures r >= 0 ==> s[r] == c
    ensures forall q :: r < q < |s| ==> s[q] != c
  {
    if s == [] then -1
    else if s[|s| - 1] == c then |s| - 1
    else LastIndexOf(s[..|s| - 1], c)
  }

  lemma LastIndexOfUnique(s: string, c: char, r: int)
    requires -1 <= r < |s|
    requires r >= 0 ==> s[r] == c
    requires forall q :: r < q < |s| ==> s[q] != c
    ensures LastIndexOf(s, c) == r
  {
  }

  /** The directory part of a path, with its trailing separator (empty when the path has none). */
  function DirPrefix(p: string): (d: string)
    ensures d == [] || d[|d| - 1] == Separator
  {
    p[..LastIndexOf(p, Separator) + 1]
  }

  /** `path.basename(p)` */
  function Basename(p: string): (b: string)
    ensures DirPrefix(p) + b == p
    ensures Separator !in b
  {
    var k := LastIndexOf(p, Separator) + 1;
    assert p[..k] + p[k..] == p;
    assert forall j :: 0 <= j < |p| - k ==> p[k..][j] == p[k + j];
    p[k..]
  }

  /** The suffix removal of `basename(p, '.md')`: `.md` comes off unless nothing would remain. */
  function StripMd(b: string): (r: string)
    ensures |b| > |MdExt| && EndsWith(b, MdExt) ==> r + MdExt == b
    ensures !(|b| > |MdExt| && EndsWith(b, MdExt)) ==> r == b
    ensures Separator !in b ==> Separator !in r
  {
    if |b| > |MdExt| && EndsWith(b, MdExt) then
      var k := |b| - |MdExt|;
      assert b[..k] + b[k..] == b;
      assert forall j :: 0 <= j < k ==> b[..k][j] == b[j];
      b[..k]
    else b
  }

  /** `path.basename(p, '.md')`: the base name with a trailing `.md` removed (a path that is exactly `.md` gives the empty string). */
  function Stem(p: string): (stem: string)
    ensures Separator !in stem
    ensures p == MdExt ==> stem == []
    ensures p != MdExt && |Basename(p)| > |MdExt| && EndsWith(Basename(p), MdExt) ==> stem + MdExt == Basename(p)
    ensures p != MdExt && !(|Basename(p)| > |MdExt| && EndsWith(Basename(p), MdExt)) ==> stem == Basename(p)
  {
    if p == MdExt then [] else StripMd(Basename(p))
  }

  /** Appending a separator-free name keeps the directory and makes that name the base name. */
  lemma JoinInDirectory(p: string, name: string)
    requires Separator !in name
    ensures DirPrefix(DirPrefix(p) + name) == DirPrefix(p)
    ensures Basename(DirPrefix(p) + name) == name
  {
    var d := DirPrefix(p);
    var s := d + name;
    LastIndexOfUnique(s, Separator, |d| - 1);
    assert s[..|d|] == d;
  }

  lemma SeparatorFreeAppend(a: string, b: string)
    requires Separator !in a
    requires b == ArtifactSuffix
    ensures Separator !in a + b
  {
    assert ArtifactSuffix == ".en.md";
    assert forall j :: 0 <= j < |a + b| ==> (a + b)[j] == if j < |a| then a[j] else b[j - |a|];
  }

  /**
    `path.join(path.dirname(p), `${path.basename(p, '.md')}.en.md`)`: the artifact
    sits in the source's directory, its base name is the stem followed by
    `.en.md`, and it is strictly longer than the source path, so never the
    source itself. On a normalised path, joining the directory name with a base
    name is the directory prefix followed by that name (`dirname` of a bare
    name is `.`, which `join` drops).
   */
  function ArtifactPath(p: string): (r: string)
    ensures DirPrefix(r) == DirPrefix(p)
    ensures Basename(r) == Stem(p) + ArtifactSuffix
    ensures |r| > |p|
  {
    var stem := Stem(p);
    var name := stem + ArtifactSuffix;
    SeparatorFreeAppend(stem, ArtifactSuffix);
    JoinInDirectory(p, name);
    assert DirPrefix(p) + Basename(p) == p;
    DirPrefix(p) + name
  }

  /** The stem of a source's artifact is the source's stem followed by `.en`. */
  lemma StemOfArtifact(p: string)
    ensures Stem(ArtifactPath(p)) == Stem(p) + LangTag
  {
    var art := ArtifactPath(p);
    ConcatAssoc(Stem(p), LangTag, MdExt);
    StemOfMdName(art, Stem(p) + LangTag);
  }

  /** A path whose base name is a non-empty `x` followed by `.md` has the stem `x`. */
  lemma StemOfMdName(q: string, x: string)
    requires |x| > 0 && Basename(q) == x + MdExt
    ensures Stem(q) == x
  {
    EndsWithAppended(x, MdExt);
    assert DirPrefix(q) + Basename(q) == q;
    assert q != MdExt;
    SameBeforeSuffix(Stem(q), x, MdExt);
  }

  lemma SameBeforeSuffix(x: string, y: string, z: string)
    requires x + z == y + z
    ensures x == y
  {
    assert x == (x + z)[..|x|];
    assert y == (y + z)[..|y|];
  }
}

/**
  Discovery: the filter that `scanMarkdownFiles` applies to the globbed
  Markdown paths, dropping files whose base name reads `stem.lang.md`.
 */
module Discovery {
  import opened Strings
  import opened Paths

  const Dot := '.'
  /** The longest token accepted as a language code. */
  const MaxLangLength := 5

  /**
    The `isTranslation` test on a base name: it contains a dot, ends with
    `.md`, splits on `.` into exactly three pieces, and the middle one has at
    most five characters. Those are exactly the names `stem.lang.md` with
    dot-free pieces and a language code of at most five characters.
   */
  predicate IsTranslationName(base: string): (r: bool)
    ensures r ==> |Split(base, Dot)| == 3 && HasLangShape(base, Split(base, Dot)[0], Split(base, Dot)[1])
    ensures forall stem, lang :: HasLangShape(base, stem, lang) ==> r
  {
    LangShapesSplit(base);
    ThreePieces(base);
    && Dot in base
    && EndsWith(base, MdExt)
    && |Split(base, Dot)| == 3
    && |Split(base, Dot)[1]| <= MaxLangLength
  }

  predicate IsTranslationFile(file: string) {
    IsTranslationName(Basename(file))
  }

  /** `Array.prototype.filter`: the elements satisfying `keep`, in their original order. */
  function Filter(xs: seq<string>, keep: string -> bool): (r: seq<string>)
    ensures |r| <= |xs|
    ensures forall x :: x in r <==> x in xs && keep(x)
  {
    if xs == [] then []
    else if keep(xs[0]) then [xs[0]] + Filter(xs[1..], keep)
    else Filter(xs[1..], keep)
  }

  predicate IsSource(file: string) {
    !IsTranslationFile(file)
  }

  /** `files.filter(file => !isTranslation)`: the source documents, in glob order. */
  function Discover(files: seq<string>): (kept: seq<string>)
    ensures |kept| <= |files|
    ensures forall f :: f in kept <==> f in files && !IsTranslationFile(f)
  {
    Filter(files, IsSource)
  }

  /** `a` is `b` with some elements removed and the rest kept in order. */
  predicate IsSubsequence<T(==)>(a: seq<T>, b: seq<T>) {
    if a == [] then true
    else if b == [] then false
    else if a[0] == b[0] then IsSubsequence(a[1..], b[1..])
    else IsSubsequence(a, b[1..])
  }

  lemma {:induction false} FilterIsSubsequence(xs: seq<string>, keep: string -> bool)
    ensures IsSubsequence(Filter(xs, keep), xs)
  {
    if xs != [] {
      FilterIsSubsequence(xs[1..], keep);
      if keep(xs[0]) {
        assert ([xs[0]] + Filter(xs[1..], keep))[1..] == Filter(xs[1..], keep);
      } else {
        SubsequenceOfTail(Filter(xs[1..], keep), xs);
      }
    }
  }

  /** The kept files are an order-preserving subsequence of the globbed ones. */
  lemma DiscoverIsSubsequence(files: seq<string>)
    ensures IsSubsequence(Discover(files), files)
  {
    FilterIsSubsequence(files, IsSource);
  }

  lemma {:induction false} SubsequenceOfTail<T>(a: seq<T>, b: seq<T>)
    requires b != [] && IsSubsequence(a, b[1..])
    ensures IsSubsequence(a, b)
  {
    if a != [] && a[0] == b[0] {
      SubsequenceDropFirst(a, b[1..]);
    }
  }

  lemma {:induction false} SubsequenceDropFirst<T>(a: seq<T>, b: seq<T>)
    requires a != [] && IsSubsequence(a, b)
    ensures IsSubsequence(a[1..], b)
  {
    if a[0] == b[0] {
      SubsequenceOfTail(a[1..], b);
    } else {
      SubsequenceDropFirst(a, b[1..]);
      SubsequenceOfTail(a[1..], b);
    }
  }

  lemma {:induction false} FilterAppend(a: seq<string>, b: seq<string>, keep: string -> bool)
    ensures Filter(a + b, keep) == Filter(a, keep) + Filter(b, keep)
  {
    if a == [] {
      assert a + b == b;
    } else {
      var ab := a + b;
      assert ab[0] == a[0] && ab[1..] == a[1..] + b;
      FilterAppend(a[1..], b, keep);
      if keep(a[0]) {
        assert Filter(ab, keep) == [a[0]] + Filter(a[1..] + b, keep);
        assert Filter(a, keep) == [a[0]] + Filter(a[1..], keep);
      } else {
        assert Filter(ab, keep) == Filter(a[1..] + b, keep);
        assert Filter(a, keep) == Filter(a[1..], keep);
      }
    }
  }

  /** Filtering commutes with concatenation: the relative order of all kept files is preserved. */
  lemma DiscoverAppend(a: seq<string>, b: seq<string>)
    ensures Discover(a + b) == Discover(a) + Discover(b)
  {
    FilterAppend(a, b, IsSource);
  }

  // ---------------------------------------------------------------------------
  // what the predicate accepts

  /** `base` has the shape `stem.lang.md` with dot-free `stem` and a dot-free `lang` of at most five characters. */
  predicate HasLangShape(base: string, stem: string, lang: string) {
    && base == stem + [Dot] + lang + MdExt
    && Dot !in stem
    && Dot !in lang
    && |lang| <= MaxLangLength
  }

  lemma ShapeJoin(stem: string, lang: string)
    ensures stem + [Dot] + lang + MdExt == Join([stem, lang, "md"], Dot)
  {
    assert MdExt == [Dot] + "md";
    assert Join([stem, lang, "md"], Dot) == stem + [Dot] + Join([lang, "md"], Dot);
  }

  /** A name of the shape `stem.lang.md` splits into its three pieces. */
  lemma ShapeSplit(base: string, stem: string, lang: string)
    requires HasLangShape(base, stem, lang)
    ensures Split(base, Dot) == [stem, lang, "md"]
    ensures Dot in base && EndsWith(base, MdExt)
  {
    ShapeJoin(stem, lang);
    assert Dot !in "md";
    SplitJoin([stem, lang, "md"], Dot);
    assert base[|stem|] == Dot;
    assert base[|base| - |MdExt|..] == MdExt;
  }

  lemma LangShapesSplit(base: string)
    ensures forall stem, lang :: HasLangShape(base, stem, lang) ==>
      Split(base, Dot) == [stem, lang, "md"] && Dot in base && EndsWith(base, MdExt)
  {
    forall stem, lang | HasLangShape(base, stem, lang)
      ensures Split(base, Dot) == [stem, lang, "md"] && Dot in base && EndsWith(base, MdExt)
    {
      ShapeSplit(base, stem, lang);
    }
  }

  /** A name ending with `.md` that splits into three pieces is the first two pieces joined by dots, then `.md`. */
  lemma ThreePieces(base: string)
    ensures |Split(base, Dot)| == 3 && EndsWith(base, MdExt) ==>
      base == Split(base, Dot)[0] + [Dot] + Split(base, Dot)[1] + MdExt
  {
    var parts := Split(base, Dot);
    if |parts| == 3 && EndsWith(base, MdExt) {
      JoinSplit(base, Dot);
      var head := parts[0] + [Dot] + parts[1] + [Dot];
      assert base == head + parts[2] by {
        assert Join(parts, Dot) == parts[0] + [Dot] + Join(parts[1..], Dot);
        assert Join(parts[1..], Dot) == parts[1] + [Dot] + Join(parts[2..], Dot);
        assert Join(parts[2..], Dot) == parts[2];
      }
      LastPieceIsMd(head, parts[2]);
      assert [Dot] + "md" == MdExt;
      assert head + "md" == parts[0] + [Dot] + parts[1] + MdExt;
    }
  }

  /** A dot-free final piece after a dot, in a name ending with `.md`, is `md`. */
  lemma LastPieceIsMd(head: string, tail: string)
    requires |head| > 0 && head[|head| - 1] == Dot
    requires Dot !in tail
    requires EndsWith(head + tail, MdExt)
    ensures tail == "md"
  {
    var base := head + tail;
    var n := |base|;
    assert base[n - 3..] == MdExt;
    assert base[n - 3] == '.' && base[n - 2] == 'm' && base[n - 1] == 'd';
    assert base[n - |tail| - 1] == Dot;
    if |tail| == 2 {
      assert tail[0] == base[n - 2] && tail[1] == base[n - 1];
    }
  }

  /** A source name `stem.md` with a dot-free stem is never dropped. */
  lemma PlainNameIsKept(stem: string)
    requires Dot !in stem
    ensures !IsTranslationName(stem + MdExt)
  {
    assert MdExt == [Dot] + "md";
    assert stem + MdExt == Join([stem, "md"], Dot);
    assert Dot !in "md";
    SplitJoin([stem, "md"], Dot);
  }

  /** The artifact of a source whose stem has no dot is itself classified as a translation, so a later scan never treats it as a source. */
  lemma ArtifactIsTranslation(file: string)
    requires Dot !in Stem(file)
    ensures IsTranslationFile(ArtifactPath(file))
  {
    ArtifactNameIsTranslation(Stem(file));
  }

  lemma ArtifactNameIsTranslation(stem: string)
    requires Dot !in stem
    ensures IsTranslationName(stem + ArtifactSuffix)
  {
    assert ArtifactSuffix == [Dot] + TargetLang + MdExt;
    assert Dot !in TargetLang;
    assert stem + ArtifactSuffix == stem + [Dot] + TargetLang + MdExt;
    assert HasLangShape(stem + ArtifactSuffix, stem, TargetLang);
  }

  /**
    A dotted source whose middle piece is short, such as `v1.2.md`, has the
    shape `stem.lang.md`: discovery drops it as a translation, so it is never
    translated.
   */
  lemma ShortDottedSourceIsDropped()
    ensures IsTranslationFile("v1.2.md")
  {
    var src := "v1.2.md";
    LastIndexOfUnique(src, Separator, -1);
    assert Basename(src) == src;
    assert HasLangShape(src, "v1", "2");
  }

  /**
    A dotted source that discovery keeps: `guide.chapter1.md` splits into three
    pieces, but its middle piece is longer than five characters. Its stem
    `guide.chapter1` has a dot, so its artifact `guide.chapter1.en.md` is kept
    as a source too.
   */
  lemma DottedStemArtifact()
    ensures !IsTranslationFile("guide.chapter1.md")
    ensures Stem("guide.chapter1.md") == "guide.chapter1"
    ensures Basename(ArtifactPath("guide.chapter1.md")) == "guide.chapter1" + ArtifactSuffix
    ensures !IsTranslationFile(ArtifactPath("guide.chapter1.md"))
  {
    LongMiddleSourceIsKept();
    LongMiddleStem();
    DottedStemArtifactIsKept("guide.chapter1.md");
  }

  lemma LongMiddleSourceIsKept()
    ensures !IsTranslationFile("guide.chapter1.md")
  {
    var src := "guide.chapter1.md";
    LastIndexOfUnique(src, Separator, -1);
    assert Basename(src) == src;
    LongMiddlePieceIsKept();
  }

  lemma LongMiddleStem()
    ensures Stem("guide.chapter1.md") == "guide.chapter1"
    ensures Dot in Stem("guide.chapter1.md")
  {
    var src := "guide.chapter1.md";
    LastIndexOfUnique(src, Separator, -1);
    assert DirPrefix(src) == [] && Basename(src) == src;
    assert src[..|src| - 3] == "guide.chapter1";
    assert Stem(src)[5] == Dot;
  }

  lemma LongMiddlePieceIsKept()
    ensures !IsTranslationName("guide.chapter1.md")
  {
    LongMiddlePieces();
  }

  lemma LongMiddlePieces()
    ensures Split("guide.chapter1.md", Dot) == ["guide", "chapter1", "md"]
  {
    var parts := ["guide", "chapter1", "md"];
    assert parts[1..] == ["chapter1", "md"] && parts[2..] == ["md"];
    assert Join(parts, Dot) == "guide.chapter1.md";
    SplitJoin(parts, Dot);
  }

  /** The artifact of a source whose stem has a dot splits into four or more pieces, so a later scan keeps it as a source. */
  lemma DottedStemArtifactIsKept(file: string)
    requires Dot in Stem(file)
    ensures !IsTranslationFile(ArtifactPath(file))
  {
    DottedNameIsKept(Stem(file));
  }

  lemma DottedNameIsKept(stem: string)
    requires Dot in stem
    ensures !IsTranslationName(stem + ArtifactSuffix)
  {
    DottedNamePieces(stem);
  }

  /** `stem.en.md` splits into the pieces of `stem` followed by `en` and `md`: four or more when `stem` has a dot. */
  lemma DottedNamePieces(stem: string)
    requires Dot in stem
    ensures |Split(stem + ArtifactSuffix, Dot)| >= 4
  {
    var tail := TargetLang + MdExt;
    assert stem + ArtifactSuffix == stem + [Dot] + tail;
    SplitAround(stem, Dot, tail);
    SeparatorGivesPieces(stem, Dot);
    assert tail[2] == Dot;
    SeparatorGivesPieces(tail, Dot);
  }

  /** A source's artifact is recognised as a translation exactly when the source's stem has no dot. */
  lemma ArtifactIsTranslationIff(file: string)
    ensures IsTranslationFile(ArtifactPath(file)) <==> Dot !in Stem(file)
  {
    if Dot in Stem(file) {
      DottedStemArtifactIsKept(file);
    } else {
      ArtifactIsTranslation(file);
    }
  }

  /**
    The artifact of a dotted stem has a dotted stem too, one `.en` longer:
    `guide.chapter1.md` gives `guide.chapter1.en.md`, whose own artifact is
    `guide.chapter1.en.en.md`.
   */
  lemma DottedArtifactStem(file: string)
    requires Dot in Stem(file)
    ensures Stem(ArtifactPath(file)) == Stem(file) + LangTag
    ensures Dot in Stem(ArtifactPath(file))
  {
    StemOfArtifact(file);
    var longer := Stem(file) + LangTag;
    assert longer[|Stem(file)|] == LangTag[0] == Dot;
  }

  /** When the glob returns a dotted stem's artifact, discovery hands it on as a source. */
  lemma DottedArtifactIsDiscovered(globbed: seq<string>, file: string)
    requires Dot in Stem(file) && ArtifactPath(file) in globbed
    ensures ArtifactPath(file) in Discover(globbed)
  {
    DottedStemArtifactIsKept(file);
  }
}

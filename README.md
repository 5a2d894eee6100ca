# Incremental Markdown translator: a verified model

`translate.js` keeps an English translation `stem.en.md` next to every
Markdown source `stem.md` under a content directory. A run does four things:

1. It discovers the sources: the globbed `.md` files minus those whose base
   name looks like `stem.lang.md`.
2. For each source it computes the SHA-256 of its content. It compares that
   digest with the `source_hash:` marker embedded in the existing artifact.
3. It translates only the stale or missing ones. It stamps the translated
   text's front matter with the new digest and writes the artifact.
4. It exits with 0 when nothing was written and 1 when something was.
   It exits with 127 at the first failure, and with 1 right away when the
   API key is missing.

This project models that core in Dafny and proves properties of the model:

- `Strings` models the JavaScript string operations the script relies on:
  `startsWith`, `endsWith`, `indexOf`, `includes`, `split` on one character
  and `trim`. It also has the ECMAScript whitespace set used by `\s` and
  `trim`.
- `Paths` models `path.basename`, `path.dirname` and `path.join` on
  normalised POSIX paths, and derives the artifact path.
- `Discovery` models the name filter of `scanMarkdownFiles`.
- `HashMarker` models the regular expression `source_hash:\s*([a-f0-9]+)`:
  `match` (the leftmost match, with greedy `\s*` and `[a-f0-9]+`) and
  `replace` (which rewrites the first match only).
- `Staleness` models `checkTranslationExists`.
- `Stamper` models the front-matter split and the three stamping cases of
  `processFile`. It also relates the stamped text to the staleness oracle.
- `Orchestrator` models the content directory as a `FileStore` class whose
  file map `writeFileSync` updates in place. `processFile` is the method
  `ProcessFile`, which takes the store as an argument, and `main` is the
  method `Run`, a loop over the discovered sources. Both are proved against
  the functions `FileStep` (one file) and `RunFrom`/`RunSpec` (the whole run).
  The exit-code lemmas are proved about those functions.

Sources whose stem contains a dot fall into two groups. When the name
splits into three pieces at the dots and the middle piece has at most five
characters, as in `v1.2.md` or `intro.v2.md`, discovery classifies it as a
translation. Such a source is dropped and never translated
(`Discovery.ShortDottedSourceIsDropped`). The other dotted sources are kept,
for example `guide.chapter1.md` or `a.b.c.md`, and their artifacts behave
differently. The artifact `guide.chapter1.en.md` splits into four pieces,
so discovery does not classify it as a translation either
(`Discovery.DottedStemArtifact`). Every run globs the directory again
(translate.js:31). The next run therefore takes `guide.chapter1.en.md` as a
source and writes `guide.chapter1.en.en.md`. The run after that writes
`guide.chapter1.en.en.en.md`, and so on. Each run writes one more file and
exits with 1. `Discovery.ArtifactIsTranslationIff`,
`Discovery.DottedArtifactStem` and `Discovery.DottedArtifactIsDiscovered`
prove the steps of this chain for every such source.

SHA-256 and the translation service are the parameters `Env.hash` and
`Env.translate`. The file system is a map from path to content.

## Model

| member | source | states |
|---|---|---|
| Strings.StartsWith | translate.js:158 | `startsWith` holds exactly when the prefix is no longer than the string and agrees with its first characters |
| Strings.EndsWith | translate.js:37 | `endsWith` holds exactly when the suffix is no longer than the string and agrees with its last characters |
| Strings.IndexOf | translate.js:159 | `indexOf(pat, from)` with `from` clamped to the length: the result is -1 or an occurrence at or after the start, and no occurrence lies between the start and the result |
| Strings.Contains | translate.js:170 | `includes` holds exactly when the pattern occurs at some position |
| Strings.Split | translate.js:38 | `split('.')` returns at least one piece, and no piece contains the separator |
| Strings.SplitOfSeparatorFree | translate.js:38 | a string without the separator splits into itself alone |
| Strings.SplitAfterPiece | translate.js:38 | a separator-free piece, the separator and a rest split into that piece followed by the pieces of the rest |
| Strings.SplitAround | translate.js:38 | splitting around one occurrence of the separator gives the pieces of the left part followed by those of the right part |
| Strings.SeparatorGivesPieces | translate.js:38 | a string containing the separator splits into at least two pieces |
| Strings.JoinSplit | translate.js:38 | joining the pieces of `split` with the separator gives back the string |
| Strings.SplitJoin | translate.js:38 | splitting a join of one or more separator-free pieces gives back exactly those pieces |
| Strings.Trim | translate.js:162 | `trim` returns a string no longer than its input that is empty or starts and ends with a non-whitespace character; it is empty exactly when the input is all whitespace |
| Strings.TrimSound | translate.js:162 | `trim` removes a leading and a trailing whitespace run; what remains is empty or starts and ends with a non-whitespace character |
| Strings.TrimUnique | translate.js:162 | any decomposition with those properties is the one `trim` computes |
| Strings.TrimIdempotent | translate.js:162 | trimming a trimmed string changes nothing |
| Strings.Span | translate.js:68 | the greedy run of a character class from a position: every character in it is in the class, and the next one is not |
| Strings.SpanUnique | translate.js:68 | a run that cannot be extended ends exactly where the greedy run ends |
| Strings.BackSpan | translate.js:162 | the longest run of a character class ending at a position: every character in it is in the class, and the one before it is not |
| Paths.LastIndexOf | translate.js:48-49 | the last position of the separator, or -1, with no separator after it |
| Paths.LastIndexOfUnique | translate.js:48-49 | any position with that property is the one computed |
| Paths.DirPrefix | translate.js:48 | the directory part is empty or ends with `/` |
| Paths.Basename | translate.js:35 | the directory part followed by the base name is the path, and the base name has no `/` |
| Paths.StripMd | translate.js:49 | `.md` is removed exactly when the name is longer than `.md` and ends with it |
| Paths.Stem | translate.js:49 | `basename(p, '.md')`: the path `.md` itself has the empty stem; otherwise the stem plus `.md` is the base name when the suffix comes off, and the stem is the base name when it does not; the stem never contains `/` |
| Paths.ArtifactPath | translate.js:48-50 | the artifact has the source's directory, its base name is the stem followed by `.en.md`, and it is strictly longer than the source, so it is never the source |
| Paths.StemOfArtifact | translate.js:48-50 | the artifact's own stem is the source's stem followed by `.en` |
| Discovery.IsTranslationName | translate.js:37-38 | a name classified as a translation splits into three pieces and has the shape `stem.lang.md`, with dot-free `stem` and a dot-free `lang` of at most five characters; conversely, every name of that shape is classified as a translation |
| Discovery.Filter | translate.js:34-41 | `filter` keeps at most as many elements, and an element is kept exactly when it is present and satisfies the predicate |
| Discovery.Discover | translate.js:34-43 | a globbed file is kept exactly when its base name is not classified as a translation |
| Discovery.FilterIsSubsequence | translate.js:34-41 | `filter` yields an order-preserving subsequence |
| Discovery.DiscoverIsSubsequence | translate.js:34-43 | the sources come out in glob order, as a subsequence of the globbed files |
| Discovery.FilterAppend | translate.js:34-41 | filtering a concatenation is concatenating the filtered parts |
| Discovery.DiscoverAppend | translate.js:34-43 | discovery over two lists of paths is discovery over each, concatenated |
| Discovery.PlainNameIsKept | translate.js:37-38 | `stem.md` with a dot-free stem is never classified as a translation |
| Discovery.ArtifactNameIsTranslation | translate.js:37-50 | a dot-free stem followed by `.en.md` is classified as a translation |
| Discovery.ArtifactIsTranslation | translate.js:37-50 | with a dot-free stem, the artifact's own name is classified as a translation, so a later scan skips it |
| Discovery.DottedNamePieces | translate.js:38 | a stem containing a dot, followed by `.en.md`, splits into at least four pieces |
| Discovery.DottedNameIsKept | translate.js:37-38 | such a name is therefore not classified as a translation |
| Discovery.DottedStemArtifactIsKept | translate.js:37-50 | for every source whose stem contains a dot, the artifact's name is not classified as a translation |
| Discovery.ArtifactIsTranslationIff | translate.js:37-50 | a later scan skips the artifact exactly when the source's stem has no dot |
| Discovery.DottedArtifactStem | translate.js:48-50 | the artifact of a dotted stem has a dotted stem again, namely the old stem followed by `.en` |
| Discovery.DottedArtifactIsDiscovered | translate.js:31-43 | when the glob returns the artifact of a dotted stem, discovery takes it as a source |
| Discovery.ShortDottedSourceIsDropped | translate.js:34-41 | `v1.2.md` has the shape `stem.lang.md`, so discovery drops it and it is never translated |
| Discovery.LongMiddleSourceIsKept | translate.js:34-41 | `guide.chapter1.md` is kept as a source: its middle piece is longer than five characters |
| Discovery.LongMiddleStem | translate.js:49 | the stem of `guide.chapter1.md` is `guide.chapter1`, which contains a dot |
| Discovery.DottedStemArtifact | translate.js:34-50 | `guide.chapter1.md` is kept as a source; its artifact is named `guide.chapter1.en.md` and is not classified as a translation either |
| HashMarker.MatchAt | translate.js:68 | the anchored matcher reports only matches of the regex that start at the given position |
| HashMarker.MatchAtComplete | translate.js:68 | every match at a position is the one the anchored matcher reports (greedy matching is unique) |
| HashMarker.FirstMatchFrom | translate.js:68 | the search returns a match of the regex at or after the start position |
| HashMarker.FirstMatchFromCorrect | translate.js:68 | the search returns the leftmost match at or after the start, and finding none means there is none |
| HashMarker.LeftmostMatch | translate.js:68 | `match` returns a match with no match further left, and returns `null` exactly when the regex matches nowhere |
| HashMarker.LeftmostMatchIff | translate.js:68 | `match` returns `m` exactly when `m` is a match with no match further left |
| HashMarker.OnlyLeftmost | translate.js:68 | there is at most one leftmost match |
| HashMarker.KeyDoesNotOverlap | translate.js:68 | two occurrences of `source_hash:` cannot overlap |
| HashMarker.FirstHash | translate.js:68-71 | the captured group `hashMatch[1]` is a non-empty lowercase hex string |
| HashMarker.FirstHashOfLeftmost | translate.js:68-71 | `hashMatch[1]` is the capture of the leftmost match |
| HashMarker.ReplaceFirst | translate.js:172 | `replace` rewrites the leftmost match to `source_hash: H` and leaves the text around it unchanged; with no match it returns the text unchanged |
| HashMarker.ReplacedMarkerMatches | translate.js:172 | after `replace`, the new marker is a match at the old match's start |
| HashMarker.MatchBeforeSharedKey | translate.js:172 | a match that starts before a key shared by two texts agreeing up to it is a match of both |
| HashMarker.ReplacedIsLeftmost | translate.js:172 | after `replace`, the written marker is the leftmost match, and it captures exactly `H` |
| HashMarker.RestampIsIdentity | translate.js:172 | rewriting a leftmost match that already reads `source_hash: H` returns the same text |
| HashMarker.ReplaceFirstIdempotent | translate.js:172 | `replace` with the same digest twice equals once |
| HashMarker.MarkerMatches | translate.js:175-179 | `source_hash: H` followed by a non-hex character, or by nothing, is a match capturing exactly `H` |
| HashMarker.MarkerAfterPrefix | translate.js:175-179 | a marker after a prefix holding no `s`, and followed by a non-hex character, is the leftmost match and reads back as `H` |
| HashMarker.MatchStaysBeforeBarrier | translate.js:168-172 | a match that starts before a character that is neither hex, whitespace nor part of the key ends before it |
| HashMarker.LeftmostBeforeBarrier | translate.js:168-172 | text appended after such a character does not move the leftmost match |
| HashMarker.FirstHashBeforeBarrier | translate.js:168-172 | text appended after such a character does not change the value read back |
| HashMarker.NoMatchAcrossBarrier | translate.js:168-172 | two texts without a match, joined after such a character, have no match |
| HashMarker.NoMatchAfterOtherChar | translate.js:168-172 | a character other than `s` put in front of a text without a match creates no match |
| Staleness.CheckTranslation | translate.js:47-79 | the artifact path is the derived one, and a missing artifact always needs an update |
| Staleness.MissingArtifactNeedsUpdate | translate.js:53-59 | absent artifact: `exists` is false, `needsUpdate` is true |
| Staleness.FreshIffLeftmostCaptureMatches | translate.js:62-71 | an existing artifact is up to date exactly when a leftmost match exists and its capture equals the source digest |
| Staleness.NoMarkerIsStale | translate.js:68-71 | an artifact without a match is stale whatever the digest |
| Staleness.ChangedSourceTurnsStale | translate.js:68-71 | a fresh artifact becomes stale when the source digest changes |
| Stamper.SplitFrontMatter | translate.js:158-164 | a split header starts and ends with `---` and has at least six characters |
| Stamper.HeaderAbsentIff | translate.js:158-164 | there is no header exactly when the text does not start with `---` or has no `---` at index 3 or later |
| Stamper.HeaderSegmentation | translate.js:158-175 | the header is the prefix ending at the first `---` at index 3 or later, even in mid-line; the body is the trimmed rest; the output is the stamped header, a newline and the body |
| Stamper.InsertMarker | translate.js:175 | `replace('---', …)` on a header starting with `---` puts `\nsource_hash: H` right after those three characters; a header without `---` is returned unchanged |
| Stamper.StampHeader | translate.js:168-176 | with a match, only the leftmost match is rewritten; with the key but no match, the header is unchanged; without the key, the marker is inserted after the opening `---` |
| Stamper.InsertCase | translate.js:173-176 | without the key, the header becomes `---\n` + `source_hash: H` + the header minus its first three characters |
| Stamper.RestampHeaderIsIdentity | translate.js:170-172 | re-stamping a header whose first match already reads `source_hash: H` leaves it byte-identical |
| Stamper.ReplacedKeepsKey | translate.js:170-172 | replacing keeps the key in the header, so a second stamp replaces again |
| Stamper.InsertedMarkerIsRestampable | translate.js:170-175 | an inserted marker followed by a non-hex character is found by the next stamp, which leaves the header unchanged |
| Stamper.StampHeaderIdempotent | translate.js:168-176 | stamping a header twice with the same digest equals stamping it once (see Left out for the side condition) |
| Stamper.NewHeader | translate.js:179 | the header made for a text without one reads back as the digest |
| Stamper.NewHeaderText | translate.js:179 | the new header is `---\nsource_hash: H\n---\n` |
| Stamper.NoHeaderStamp | translate.js:177-180 | without a header, the output is the new header followed by the unmodified text, which is a suffix of the output |
| Stamper.Stamp | translate.js:155-180 | without a header the whole translated text ends the output; with one, the trimmed body does, after a newline; in the shapes named by `MarkerSurvives`, the output reads back as the digest |
| Stamper.NewHeaderCarriesDigest | translate.js:179 | the new header followed by any text reads back as the digest |
| Stamper.ReplacedCarriesDigest | translate.js:172 | after replacing, the header's first marker reads back as the digest |
| Stamper.CaptureIsDigest | translate.js:172 | after replacing, the characters at the capture's position are the digest |
| Stamper.ReplacedHeaderCarriesDigest | translate.js:172 | a header with a match, after replacing and followed by a newline and any body, reads back as the digest |
| Stamper.InsertedHeaderCarriesDigest | translate.js:175 | a header without the key and without a hex digit after the opening `---`, after inserting and followed by a newline and any body, reads back as the digest |
| Stamper.HeaderStampCarriesDigest | translate.js:167-176 | a split header with a match, or without the key and without a hex digit after `---`, stamped and followed by any body, reads back as the digest |
| Stamper.StampedArtifactIsFresh | translate.js:167-180 | the staleness oracle reports a freshly stamped artifact as existing and up to date |
| Stamper.MarkerAbsorbsHexRun | translate.js:175 | an inserted marker directly followed by a hex digit reads back a value longer than the digest |
| Stamper.InsertedHeaderAbsorbsHexDigits | translate.js:175 | the header-level form of that: the stamped header and any body read back a longer value |
| Stamper.InsertedMarkerAbsorbsHexDigits | translate.js:175 | when the opening `---` is directly followed by a hex digit, the inserted value runs into it: the artifact reads back a longer value and stays stale |
| Stamper.UnmatchedHeaderLeavesNoMarker | translate.js:170-172 | a header with the key but no match, over a body without a match, is stamped into a text with no match |
| Stamper.UnmatchedKeyLeavesArtifactStale | translate.js:170-172 | a header with the key but no well-formed value, over a body without a marker, gives an artifact with no marker, which stays stale |
| Orchestrator.Lookup | translate.js:53-65 | a lookup succeeds exactly for present paths and returns their content |
| Orchestrator.FileStep | translate.js:128-190 | a missing source fails; a step is up to date exactly when the source and its artifact exist and the artifact's marker reads the source's digest; a failure otherwise comes from the translation service; a translation writes the stamped translated text to the derived artifact path, never to the source |
| Orchestrator.FileStore.Read | translate.js:148 | reading returns the stored content, or nothing for a missing path |
| Orchestrator.FileStore.Write | translate.js:183 | writing sets one path's content and leaves every other path as it was |
| Orchestrator.ProcessFile | translate.js:128-190 | `processFile` exits 127 exactly on a failing step, returns `true` exactly when it translated, and leaves the store as the step's effect on it |
| Orchestrator.RunFrom | translate.js:198-219 | the loop ends with 0, 1 or 127, handles at most all the files, and handles every file unless it ends with 127 |
| Orchestrator.RunSpec | translate.js:193-220 | without an API key (lines 15-18) the run exits 1 and handles no file; otherwise it ends with 0, 1 or 127, after at most the discovered sources |
| Orchestrator.Run | translate.js:193-220 | `main` returns the specified exit code and leaves the store in the specified state; the loop keeps `hasUpdates` equal to "some handled file was written" |
| Orchestrator.LoopStep | translate.js:200-205 | one loop turn: the run from file `i` is the step for it followed by the run from `i + 1`, or just that step when it failed |
| Orchestrator.FailureStopsTheRun | translate.js:186-219 | 127 exactly when the last step failed; no earlier step failed; later files are never handled; without a failure every file is handled |
| Orchestrator.UpdatedIff | translate.js:198-212 | the loop yields 1 exactly when nothing failed and some file was written |
| Orchestrator.NoChangesIff | translate.js:198-216 | the loop yields 0 exactly when every file was handled and found up to date |
| Orchestrator.ExitCodeMeaning | translate.js:193-219 | for a whole run: 0 means every discovered source was fresh, 1 means something was written and nothing failed, 127 means the last handled file failed |
| Orchestrator.ApplyAllCons | translate.js:200-205 | the effect of a step followed by further steps is the effect of those steps on the state the first one left |
| Orchestrator.StepsInOrder | translate.js:200-205 | step `k` is the decision for the `k`-th source against the file system the earlier steps left, and the final file system is what all steps leave |
| Orchestrator.FreshDoesNotTranslate | translate.js:135-138 | whether a file is fresh does not depend on the translation service, and a fresh file writes nothing |
| Orchestrator.TranslationTarget | translate.js:183 | a translation writes only the derived artifact path, never the source, and leaves every other file unchanged |
| Orchestrator.WrittenArtifactIsFresh | translate.js:128-185 | right after a file's artifact is written, handling the file again finds it up to date (for stamps that survive, see `MarkerSurvives`) |

## Left out

- SHA-256 (`calculateFileHash`): it is the parameter `Env.hash`. That is an arbitrary function from content to a non-empty lowercase hex string, which is all the model needs. The model computes it once per file. The script computes it once when the artifact is missing (translate.js:133, because `checkTranslationExists` returns at lines 53-59) and twice when the artifact exists (lines 62 and 133), from the same content.
- The HTTP request in `translateContent`: it is the parameter `Env.translate`, which returns a translation or a failure. A malformed response is one of the failures. That includes a response whose `output.text` is empty, which `translateContent` rejects (translate.js:114-120); `Env.translate` is an arbitrary function, so the model also admits `Success("")`, and an environment faithful to the script returns `Failure` there.
- The glob walk: the list of globbed paths is an input, in whatever order the walk yields. A failing glob (which `main` maps to 127) is not modelled.
- File-system errors: for an existing file, reads and writes never fail in the model. A read of a missing source is modelled; it exits 127. A failing read of an existing file or a failing write would also exit 127 in the script.
- Console output, `dotenv`, and `process.exit` as an effect: the exit code is returned as a value.
- `async`/`await`: each file is awaited in turn, so the loop is sequential.
- UTF-16: strings are sequences of code points. For characters outside the Basic Multilingual Plane, index positions and lengths therefore differ from JavaScript's. In particular the test `length <= 5` at translate.js:38 counts UTF-16 code units. A middle piece of three such characters has length 6 in the script, so the name is kept, but length 3 in the model, so the name is dropped.
- Path normalisation: paths are taken as normalised, `/`-separated, with no trailing separator. These are the paths a glob over a normalised root returns. `path.join` of `dirname` and a base name is then the directory prefix followed by the name. A path that is exactly `.md` has an empty stem.
- Replacement patterns of `String.prototype.replace` such as `$&`: the replacement text is `source_hash: ` followed by hex digits, so such patterns never occur. The model inserts the text literally.
- The `sourceHash` field of the object `checkTranslationExists` returns: no caller reads it.
- The log-message branch at lines 140-144: it only chooses a message.
- Stamper.StampHeaderIdempotent: in the insert case it holds only when the character after the opening `---` is not a hex digit. Otherwise the inserted value runs into those digits (see `Stamper.InsertedMarkerAbsorbsHexDigits`), so stamping twice does not give the same front matter.
- Stamper.Stamp: its read-back clause holds only for texts satisfying `MarkerSurvives`. It fails for a header whose `source_hash:` has no hex value, and in the hex-digit case above. Both failures are proved as lemmas.
- Stamper.StampedArtifactIsFresh: it requires `MarkerSurvives`, for the same reason.
- Orchestrator.WrittenArtifactIsFresh: it is limited to translations satisfying `MarkerSurvives`, for the same reason.
- Staleness policies based on commit markers or modification times: `translate.js` does not implement them.

/**
  The staleness oracle `checkTranslationExists`: where a source's artifact
  lives, whether it exists, and whether its embedded `source_hash` marker
  matches the source's digest.
 */
module Staleness {
  import opened Wrappers
  import opened Paths
  import opened HashMarker

  /** The fields of the object `checkTranslationExists` returns that its caller reads. */
  datatype CheckResult = CheckResult(artifactExists: bool, needsUpdate: bool, translationFile: string)

  /**
    `artifact` is the artifact's content, or `None` when `fs.existsSync` is
    false; `sourceHash` is the source's digest, taken as an opaque value.
   */
  function CheckTranslation(originalFile: string, artifact: Option<string>, sourceHash: string): (r: CheckResult)
    ensures r.translationFile == ArtifactPath(originalFile)
    ensures !r.artifactExists ==> r.needsUpdate
  {
    var translationFile := ArtifactPath(originalFile);
    match artifact
    case None => CheckResult(false, true, translationFile)
    case Some(content) =>
      var hashMatch := FirstHash(content);
      CheckResult(true, hashMatch.None? || hashMatch.value != sourceHash, translationFile)
  }

  /** A missing artifact is reported as absent and in need of a translation. */
  lemma MissingArtifactNeedsUpdate(originalFile: string, sourceHash: string)
    ensures CheckTranslation(originalFile, None, sourceHash) == CheckResult(false, true, ArtifactPath(originalFile))
  {
  }

  /**
    An existing artifact is fresh exactly when the regex's leftmost match
    exists and its capture equals the source digest.
   */
  lemma FreshIffLeftmostCaptureMatches(originalFile: string, content: string, sourceHash: string)
    ensures CheckTranslation(originalFile, Some(content), sourceHash).artifactExists
    ensures !CheckTranslation(originalFile, Some(content), sourceHash).needsUpdate
        <==> exists m :: IsLeftmostMatch(content, m) && content[m.digits..m.end] == sourceHash
  {
    match LeftmostMatch(content)
    case Some(m) =>
      LeftmostMatchIff(content, m);
      forall m' | IsLeftmostMatch(content, m') ensures m' == m {
        LeftmostMatchIff(content, m');
      }
    case None =>
  }

  /** An artifact without any match of the regex is stale, whatever the source digest. */
  lemma NoMarkerIsStale(originalFile: string, content: string, sourceHash: string)
    requires forall m :: !MatchesAt(content, m)
    ensures CheckTranslation(originalFile, Some(content), sourceHash).needsUpdate
  {
  }

  /** A fresh artifact turns stale once the source's digest changes. */
  lemma ChangedSourceTurnsStale(originalFile: string, content: string, oldHash: string, newHash: string)
    requires !CheckTranslation(originalFile, Some(content), oldHash).needsUpdate
    requires newHash != oldHash
    ensures CheckTranslation(originalFile, Some(content), newHash).needsUpdate
  {
  }
}

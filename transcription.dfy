/**
 * Decisions taken on the recogniser's answer: the character-count milestone and the
 * classification of a recognition failure into an error type and an HTTP status.
 */
module Transcription {
  import Text

  const MilestoneStep: int := 5000

  /** `new // 5000 > prev // 5000` with `new == prev + added`. Python's `//` by a positive divisor is Dafny's `/`. */
  function MilestoneHit(prev: int, added: nat): bool {
    (prev + added) / MilestoneStep > prev / MilestoneStep
  }

  predicate IsMultipleOfStep(m: int) {
    m % MilestoneStep == 0
  }

  /**
   * The milestone fires exactly when the count passes a multiple of 5000: some multiple `m`
   * with `prev < m <= prev + added`. It fires at every multiple, not once per session.
   */
  lemma MilestoneCrossesMultiple(prev: int, added: nat)
    ensures MilestoneHit(prev, added) <==> exists m :: IsMultipleOfStep(m) && prev < m <= prev + added
  {
    var q, q' := prev / MilestoneStep, (prev + added) / MilestoneStep;
    if MilestoneHit(prev, added) {
      var m := q' * MilestoneStep;
      assert IsMultipleOfStep(m);
    } else {
      forall m | IsMultipleOfStep(m) && prev < m <= prev + added ensures false {
      }
    }
  }

  /** The milestone fires again at the next multiple within the same session. */
  lemma MilestoneRefires(prev: int)
    requires prev % MilestoneStep == MilestoneStep - 1
    ensures MilestoneHit(prev, 1) && MilestoneHit(prev + 1 + MilestoneStep - 1, 1)
  {
    MilestoneCrossesMultiple(prev, 1);
    MilestoneCrossesMultiple(prev + MilestoneStep, 1);
    assert IsMultipleOfStep(prev + 1);
    assert IsMultipleOfStep(prev + 1 + MilestoneStep);
  }

  /** The `error_type` of a failed recognition. */
  datatype ErrorKind =
    | WebmCorruption
    | FormatUnsupported
    | AudioLoadFailed
    | TranscriptionFailed(message: string)

  /** The message the recogniser gives for a WebM chunk whose EBML header is damaged. */
  const EbmlParseFailure: string := "EBML header parsing failed"

  /** The first matching rule wins: the EBML parse message, then `ffmpeg`, then `load audio` (both case-insensitively). */
  function ClassifyError(message: string): (kind: ErrorKind)
  {
    if Text.Contains(message, EbmlParseFailure) then WebmCorruption
    else if Text.Contains(Text.Lower(message), "ffmpeg") then FormatUnsupported
    else if Text.Contains(Text.Lower(message), "load audio") then AudioLoadFailed
    else TranscriptionFailed(message)
  }

  /** 422 for the three recognised causes (the upload is at fault), 500 for anything else. */
  function HttpStatus(kind: ErrorKind): int {
    if kind.TranscriptionFailed? then 500 else 422
  }

  /**
   * How a failure message is classified: the EBML message wins over everything (matched
   * case-sensitively); otherwise `ffmpeg` and then `load audio` are looked for in the
   * lower-cased message; only a message matching none of them is a 500.
   */
  lemma ClassificationPrecedence(message: string, i: nat)
    ensures Text.OccursAt(message, EbmlParseFailure, i) ==> ClassifyError(message) == WebmCorruption
    ensures !Text.Contains(message, EbmlParseFailure) && Text.OccursAt(Text.Lower(message), "ffmpeg", i)
      ==> ClassifyError(message) == FormatUnsupported
    ensures !Text.Contains(message, EbmlParseFailure) && !Text.Contains(Text.Lower(message), "ffmpeg")
      && Text.OccursAt(Text.Lower(message), "load audio", i)
      ==> ClassifyError(message) == AudioLoadFailed
    ensures HttpStatus(ClassifyError(message)) == 500 <==>
      !Text.Contains(message, EbmlParseFailure) && !Text.Contains(Text.Lower(message), "ffmpeg")
      && !Text.Contains(Text.Lower(message), "load audio")
    ensures HttpStatus(ClassifyError(message)) == 500 ==> ClassifyError(message) == TranscriptionFailed(message)
  {
    Text.ContainsIsSubstring(message, EbmlParseFailure);
    Text.ContainsIsSubstring(Text.Lower(message), "ffmpeg");
    Text.ContainsIsSubstring(Text.Lower(message), "load audio");
  }

  /** `ffmpeg` is found in any capitalisation (`FFmpeg`, `FFMPEG`, ...), so such failures are 422s. */
  lemma FfmpegMatchedInAnyCase(message: string, word: string, i: nat)
    requires Text.Lower(word) == "ffmpeg" && Text.OccursAt(message, word, i)
    ensures HttpStatus(ClassifyError(message)) == 422
    ensures ClassifyError(message) in {WebmCorruption, FormatUnsupported}
  {
    Text.LowerSlice(message, i, i + |word|);
    assert Text.OccursAt(Text.Lower(message), "ffmpeg", i);
    ClassificationPrecedence(message, i);
  }
}

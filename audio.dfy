/**
 * Checks on an uploaded recording before it is handed to the recogniser: the choice of
 * temporary-file extension from the upload's content type, and `validate_audio_file`,
 * which bounds the file size and then sniffs the container format from the first bytes.
 */
module Audio {
  import opened Wrappers
  import Text

  newtype byte = x: int | 0 <= x < 256

  const MinAudioSize: int := 500
  const MaxAudioSize: int := 100 * 1024 * 1024
  /** How many bytes the validator reads from the start of the file. */
  const HeaderLength: nat := 12

  /** EBML element id that opens every WebM/Matroska file (RFC 8794, section 11.2.1). */
  const EbmlMagic: seq<byte> := [0x1A, 0x45, 0xDF, 0xA3]
  /** Box type `ftyp` found at byte 4 of an ISO base-media (MP4) file (ISO/IEC 14496-12, section 4.3). */
  const FtypBox: seq<byte> := [0x66, 0x74, 0x79, 0x70]
  /** `RIFF`, the first four bytes of a WAV file. */
  const RiffMagic: seq<byte> := [0x52, 0x49, 0x46, 0x46]

  datatype Format = WebM | Mp4 | Wav | UnknownFormat

  datatype Rejection =
    | NotFound
    | TooSmall(size: int)
    | TooLarge(size: int)
    | InvalidHeader
    /** Opening or reading the file raised an exception. */
    | Unreadable

  datatype Validation = Valid(format: Format) | Invalid(reason: Rejection)

  /** `f.read(12)` on a file with the given contents. */
  function ReadHeader(contents: seq<byte>): (header: seq<byte>)
    ensures |header| == if |contents| < HeaderLength then |contents| else HeaderLength
    ensures header == contents[..|header|]
  {
    if |contents| < HeaderLength then contents else contents[..HeaderLength]
  }

  /** `header[4:8] == b'ftyp'`: a shorter header slices to fewer than four bytes and fails. */
  predicate HasFtypAt4(header: seq<byte>) {
    |header| >= 8 && header[4..8] == FtypBox
  }

  /**
   * `validate_audio_file`, given whether the file exists, its size, and the bytes read
   * from its start (`None` when reading raised). The size checks come before the header
   * is looked at; a header of four or more bytes is always accepted, labelled by the first
   * signature that matches in the order EBML, `ftyp` at offset 4, `RIFF`, unknown.
   */
  function ValidateAudio(present: bool, size: int, header: Option<seq<byte>>): (v: Validation)
    ensures !present ==> v == Invalid(NotFound)
    ensures present && size < MinAudioSize ==> v == Invalid(TooSmall(size))
    ensures present && size > MaxAudioSize ==> v == Invalid(TooLarge(size))
    ensures present && MinAudioSize <= size <= MaxAudioSize && header.None? ==> v == Invalid(Unreadable)
    ensures present && MinAudioSize <= size <= MaxAudioSize && header.Some? && |header.value| < 4
      ==> v == Invalid(InvalidHeader)
    ensures v.Valid? <==>
      present && MinAudioSize <= size <= MaxAudioSize && header.Some? && |header.value| >= 4
    ensures v == Valid(WebM) <==> v.Valid? && header.value[..4] == EbmlMagic
    ensures v == Valid(Mp4) <==> v.Valid? && header.value[..4] != EbmlMagic && HasFtypAt4(header.value)
    ensures v == Valid(Wav) <==>
      v.Valid? && header.value[..4] != EbmlMagic && !HasFtypAt4(header.value) && header.value[..4] == RiffMagic
    ensures v == Valid(UnknownFormat) <==>
      v.Valid? && header.value[..4] !in {EbmlMagic, RiffMagic} && !HasFtypAt4(header.value)
  {
    if !present then Invalid(NotFound)
    else if size < MinAudioSize then Invalid(TooSmall(size))
    else if size > MaxAudioSize then Invalid(TooLarge(size))
    else match header
      case None => Invalid(Unreadable)
      case Some(h) =>
        if |h| >= 4 then
          if h[..4] == EbmlMagic then Valid(WebM)
          else if HasFtypAt4(h) then Valid(Mp4)
          else if h[..4] == RiffMagic then Valid(Wav)
          else Valid(UnknownFormat)
        else Invalid(InvalidHeader)
  }

  /**
   * For a file that was written and can be read back, only its size decides: every file
   * of 500 bytes up to 100 MiB is accepted, whatever its contents, because its first read
   * returns twelve bytes.
   */
  lemma SavedFileValidIffSizeInBounds(contents: seq<byte>)
    ensures ValidateAudio(true, |contents|, Some(ReadHeader(contents))).Valid?
        <==> MinAudioSize <= |contents| <= MaxAudioSize
    ensures MinAudioSize <= |contents| <= MaxAudioSize ==> |ReadHeader(contents)| == HeaderLength
  {
  }

  /**
   * The suffix of the temporary file: `.mp4`, `.wav` or `.mp3` when the content type
   * mentions the format (first match in that order), `.webm` otherwise. A missing content
   * type is read as the empty string.
   */
  function ExtensionFor(contentType: Option<string>): (ext: string)
  {
    var ct := contentType.GetOr("");
    if Text.Contains(ct, "mp4") then ".mp4"
    else if Text.Contains(ct, "wav") then ".wav"
    else if Text.Contains(ct, "mpeg") || Text.Contains(ct, "mp3") then ".mp3"
    else ".webm"
  }

  /**
   * The extension names a format the content type mentions, with `mp4` taking precedence
   * over `wav`, and `wav` over `mpeg`/`mp3`; `.webm` is the fallback for everything else.
   */
  lemma ExtensionFollowsContentType(contentType: Option<string>, i: nat)
    ensures ExtensionFor(contentType) in {".webm", ".mp4", ".wav", ".mp3"}
    ensures var ct := contentType.GetOr("");
      Text.OccursAt(ct, "mp4", i) ==> ExtensionFor(contentType) == ".mp4"
    ensures var ct := contentType.GetOr("");
      Text.OccursAt(ct, "wav", i) ==> ExtensionFor(contentType) in {".mp4", ".wav"}
    ensures var ct := contentType.GetOr("");
      (Text.OccursAt(ct, "mpeg", i) || Text.OccursAt(ct, "mp3", i)) ==> ExtensionFor(contentType) != ".webm"
    ensures var ct := contentType.GetOr("");
      ExtensionFor(contentType) == ".mp4" ==> exists j :: Text.OccursAt(ct, "mp4", j)
    ensures var ct := contentType.GetOr("");
      ExtensionFor(contentType) == ".wav" ==> !Text.OccursAt(ct, "mp4", i) && exists j :: Text.OccursAt(ct, "wav", j)
    ensures var ct := contentType.GetOr("");
      ExtensionFor(contentType) == ".mp3" ==>
        && !Text.OccursAt(ct, "mp4", i) && !Text.OccursAt(ct, "wav", i)
        && exists j :: Text.OccursAt(ct, "mpeg", j) || Text.OccursAt(ct, "mp3", j)
    ensures contentType.None? ==> ExtensionFor(contentType) == ".webm"
  {
    var ct := contentType.GetOr("");
    Text.ContainsIsSubstring(ct, "mp4");
    Text.ContainsIsSubstring(ct, "wav");
    Text.ContainsIsSubstring(ct, "mpeg");
    Text.ContainsIsSubstring(ct, "mp3");
  }
}

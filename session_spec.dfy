/**
 * The server's session bookkeeping as state transitions on a snapshot of everything it
 * keeps: the session counter file, the active-session file, the in-memory tables
 * `active_sessions` and `char_count`, and the per-session transcript files. Every route
 * is a function from a snapshot (and its inputs) to the next snapshot and its reply; the
 * `Backend` class in module `Server` is proved to perform exactly these transitions.
 */
module SessionSpec {
  import opened Wrappers
  import Text
  import Audio
  import SessionKeys
  import Transcription

  /** A session started less than this many seconds ago is handed out again. */
  const ReuseWindow: int := 30
  /** A session idle for more than this many seconds is dropped by the cleanup. */
  const IdleTimeout: int := 3600
  const UnknownLanguage: string := "unknown"

  /** What one of the server's one-number files holds: no file, an integer, or text `int()` rejects. */
  datatype StoredInt = Missing | Number(n: int) | Unparsable

  /** An `active_sessions` entry: when the session was created and last used (seconds). */
  datatype SessionInfo = SessionInfo(created: int, lastActivity: int)

  datatype Store = Store(
    counter: StoredInt,                // session_counter.txt: the next session id
    activeFile: StoredInt,             // active_session.txt: the id of the active session
    sessions: map<int, SessionInfo>,   // active_sessions
    charCount: map<string, nat>,       // char_count, by session key
    transcripts: map<string, string>)  // the transcript file of each session key

  function CountOf(s: Store, key: string): nat {
    if key in s.charCount then s.charCount[key] else 0
  }

  /** The transcript file's text; a file never written reads as empty. */
  function TranscriptOf(s: Store, key: string): string {
    if key in s.transcripts then s.transcripts[key] else ""
  }

  // ---------------------------------------------------------------- session helpers

  /** `get_next_session_id`: the stored counter; a missing file is created holding 1, unreadable text reads as 1. */
  function NextSessionId(s: Store): (Store, int) {
    match s.counter
    case Missing => (s.(counter := Number(1)), 1)
    case Number(n) => (s, n)
    case Unparsable => (s, 1)
  }

  /** `increment_session_id`: reads the counter as above and stores one more. */
  function IncrementSessionId(s: Store): Store {
    var (s1, current) := NextSessionId(s);
    s1.(counter := Number(current + 1))
  }

  /** `set_active_session_id`: records the id in the active file and (re)starts its table entry. */
  function SetActiveSessionId(s: Store, id: int, now: int): Store {
    s.(activeFile := Number(id), sessions := s.sessions[id := SessionInfo(now, now)])
  }

  /** `get_active_session_id`: the id in the active file, if any; a tracked id has its last activity refreshed. */
  function GetActiveSessionId(s: Store, now: int): (Store, Option<int>) {
    match s.activeFile
    case Number(id) =>
      if id in s.sessions then
        (s.(sessions := s.sessions[id := s.sessions[id].(lastActivity := now)]), Some(id))
      else (s, Some(id))
    case _ => (s, None)
  }

  predicate IsIdle(info: SessionInfo, now: int) {
    now - info.lastActivity > IdleTimeout
  }

  function LiveSessions(sessions: map<int, SessionInfo>, now: int): map<int, SessionInfo> {
    map id | id in sessions && !IsIdle(sessions[id], now) :: sessions[id]
  }

  /** `cleanup_old_sessions`: drops the entries idle for more than an hour. */
  function CleanupOldSessions(s: Store, now: int): Store {
    s.(sessions := LiveSessions(s.sessions, now))
  }

  // ---------------------------------------------------------------- routes

  datatype StartReply = Reused(id: int, key: string, age: int) | Started(id: int, key: string)

  /** The reuse test of `start_session`: a non-zero (truthy) tracked id created less than 30 seconds ago. */
  predicate Reusable(s: Store, current: Option<int>, now: int) {
    && current.Some? && current.value != 0 && current.value in s.sessions
    && now - s.sessions[current.value].created < ReuseWindow
  }

  /** `POST /start_session`. */
  function StartSession(s: Store, now: int): (Store, StartReply) {
    var (s1, current) := GetActiveSessionId(s, now);
    if Reusable(s1, current, now) then
      var id := current.value;
      (s1, Reused(id, SessionKeys.SessionKey(id), now - s1.sessions[id].created))
    else
      var (s2, id) := NextSessionId(s1);
      var s3 := IncrementSessionId(s2);
      var key := SessionKeys.SessionKey(id);
      var s4 := s3.(charCount := s3.charCount[key := 0]);
      (SetActiveSessionId(s4, id, now), Started(id, key))
  }

  /** The uploaded `audio` file part: its file name, content type (possibly absent) and bytes. */
  datatype Upload = Upload(filename: string, contentType: Option<string>, contents: seq<Audio.byte>)

  /** The recogniser's answer: its result's `text` and `language` entries, or the message of the exception it raised. */
  datatype Recognition = Recognized(text: Option<string>, language: Option<string>) | Failed(message: string)

  /** The speech recogniser, as a function of the temporary file's suffix and contents. */
  type Recogniser = (string, seq<Audio.byte>) -> Recognition

  datatype Reply =
    | Transcribed(text: string, milestone: bool, charCount: nat, language: string, fileSize: nat)
    | NoSpeech(language: string, fileSize: nat)
    | NoActiveSession
    | NoAudioFile
    | EmptyFilename
    | InvalidAudio(reason: Audio.Rejection, fileSize: nat, contentType: string)
    | RecognitionError(kind: Transcription.ErrorKind, fileSize: nat)

  /** The HTTP status each reply is sent with. */
  function Status(r: Reply): int {
    match r
    case Transcribed(_, _, _, _, _) => 200
    case NoSpeech(_, _) => 200
    case NoActiveSession => 400
    case NoAudioFile => 400
    case EmptyFilename => 400
    case InvalidAudio(_, _, _) => 422
    case RecognitionError(kind, _) => Transcription.HttpStatus(kind)
  }

  /** The `text` field of a reply (the no-speech reply carries an empty one). */
  function ReplyText(r: Reply): string {
    if r.Transcribed? then r.text else ""
  }

  /** Appends `text` as one line to the session's transcript and adds its length to the session's count. */
  function RecordText(s: Store, key: string, text: string): (Store, bool) {
    var prev := CountOf(s, key);
    var s' := s.(transcripts := s.transcripts[key := TranscriptOf(s, key) + text + "\n"],
                 charCount := s.charCount[key := prev + |text|]);
    (s', Transcription.MilestoneHit(prev, |text|))
  }

  /** What `transcribe_audio` does with a recogniser result: strip the text, record it if non-empty, reply. */
  function AcceptResult(s: Store, key: string, rawText: Option<string>, language: Option<string>, fileSize: nat)
    : (Store, Reply)
  {
    var text := Text.Strip(rawText.GetOr(""));
    var lang := language.GetOr(UnknownLanguage);
    if text != "" then
      var (s1, milestone) := RecordText(s, key, text);
      (s1, Transcribed(text, milestone, CountOf(s1, key), lang, fileSize))
    else
      (s, NoSpeech(lang, fileSize))
  }

  /** `POST /transcribe`, with the uploaded file part (if any) and the recogniser. */
  function TranscribeAudio(s: Store, now: int, audio: Option<Upload>, recognise: Recogniser): (Store, Reply) {
    var (s1, active) := GetActiveSessionId(s, now);
    if active.None? then (s1, NoActiveSession)
    else if audio.None? then (s1, NoAudioFile)
    else if audio.value.filename == "" then (s1, EmptyFilename)
    else ProcessUpload(s1, SessionKeys.SessionKey(active.value), audio.value, recognise)
  }

  /** The rest of `transcribe_audio` once the session key and a named upload are known: validate, recognise, accept. */
  function ProcessUpload(s: Store, key: string, upload: Upload, recognise: Recogniser): (Store, Reply) {
    var size := |upload.contents|;
    var validation := Audio.ValidateAudio(true, size, Some(Audio.ReadHeader(upload.contents)));
    if validation.Invalid? then
      (s, InvalidAudio(validation.reason, size, upload.contentType.GetOr("")))
    else match recognise(Audio.ExtensionFor(upload.contentType), upload.contents)
      case Failed(message) => (s, RecognitionError(Transcription.ClassifyError(message), size))
      case Recognized(text, language) => AcceptResult(s, key, text, language, size)
  }

  datatype HealthReply = HealthReply(activeSession: Option<int>, totalSessions: nat)

  /** `GET /health`: cleanup first, then the active id and the number of tracked sessions. */
  function HealthCheck(s: Store, now: int): (Store, HealthReply) {
    var s1 := CleanupOldSessions(s, now);
    var (s2, active) := GetActiveSessionId(s1, now);
    (s2, HealthReply(active, |s2.sessions|))
  }
}

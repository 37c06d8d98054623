/**
 * What the session bookkeeping guarantees: how each route changes the store, the store
 * invariant every route keeps, and that new sessions receive consecutive, never-reused ids
 * over any sequence of requests.
 */
module SessionProperties {
  import opened Wrappers
  import Text
  import Audio
  import SessionKeys
  import Transcription
  import opened SessionSpec

  /**
   * The id the next new session receives: the stored counter, or 1 when it is missing or
   * unreadable. Stated on the counter alone, so that lemmas about whole runs of requests
   * can name the next id without threading a store through `NextSessionId`;
   * `ReadThenIncrement` proves the two agree.
   */
  function NextId(counter: StoredInt): int {
    if counter.Number? then counter.n else 1
  }

  // ---------------------------------------------------------------- counter

  /** Without a usable counter file the first id is 1 and the counter then holds 2; a missing file is created holding 1. */
  lemma CounterDefaultsToOne(s: Store)
    requires !s.counter.Number?
    ensures NextSessionId(s).1 == 1
    ensures NextSessionId(s).0.counter == (if s.counter.Missing? then Number(1) else Unparsable)
    ensures IncrementSessionId(s).counter == Number(2)
  {
  }

  /** Reading the counter and then incrementing it yields consecutive values; nothing but the counter changes. */
  lemma ReadThenIncrement(s: Store)
    ensures var (s1, id) := NextSessionId(s);
      id == NextId(s.counter) && IncrementSessionId(s1) == s.(counter := Number(id + 1))
  {
  }

  // ---------------------------------------------------------------- active session and cleanup

  /**
   * Reading the active session reports the id in the active file and never adds or removes
   * a table entry: it only sets the last activity of that id, if tracked, to `now`.
   */
  lemma GetActiveOnlyRefreshes(s: Store, now: int)
    ensures var (s', active) := GetActiveSessionId(s, now);
      && active == (if s.activeFile.Number? then Some(s.activeFile.n) else None)
      && s'.sessions.Keys == s.sessions.Keys
      && s'.(sessions := s.sessions) == s
      && (forall id :: id in s.sessions ==>
            s'.sessions[id] == if active == Some(id) then s.sessions[id].(lastActivity := now) else s.sessions[id])
  {
  }

  /** The cleanup removes exactly the entries idle for more than an hour and leaves every other entry and file as it was. */
  lemma CleanupRemovesExactlyIdle(s: Store, now: int)
    ensures var s' := CleanupOldSessions(s, now);
      && (forall id :: id in s'.sessions <==> id in s.sessions && now - s.sessions[id].lastActivity <= IdleTimeout)
      && (forall id :: id in s'.sessions ==> s'.sessions[id] == s.sessions[id])
      && s'.(sessions := s.sessions) == s
  {
  }

  // ---------------------------------------------------------------- start_session

  /** A session is reused exactly when the active file names a non-zero tracked session created less than 30 seconds ago. */
  lemma StartReusesIff(s: Store, now: int)
    ensures StartSession(s, now).1.Reused? <==>
      && s.activeFile.Number? && s.activeFile.n != 0 && s.activeFile.n in s.sessions
      && now - s.sessions[s.activeFile.n].created < ReuseWindow
  {
  }

  /**
   * Reuse: the reply names the active session and its age, which is below 30 seconds;
   * the counter, the counts, the transcripts and the active file are unchanged, and the
   * table only has that session's last activity refreshed.
   */
  lemma StartReuse(s: Store, now: int)
    requires StartSession(s, now).1.Reused?
    ensures var (s', r) := StartSession(s, now);
      && s.activeFile == Number(r.id) && r.key == SessionKeys.SessionKey(r.id)
      && r.age == now - s.sessions[r.id].created < ReuseWindow
      && s'.counter == s.counter && s'.charCount == s.charCount && s'.transcripts == s.transcripts
      && s'.activeFile == s.activeFile
      && s'.sessions == s.sessions[r.id := s.sessions[r.id].(lastActivity := now)]
  {
  }

  /**
   * New session: the id is the counter value read, the counter becomes id + 1, the count
   * of the new key is reset to 0, the id becomes active with creation and last activity
   * `now`, the previously active session (if tracked) has its last activity refreshed,
   * every other entry is kept, and the transcripts are untouched.
   */
  lemma StartNew(s: Store, now: int)
    requires StartSession(s, now).1.Started?
    ensures var (s', r) := StartSession(s, now);
      && r.id == NextId(s.counter) && r.key == SessionKeys.SessionKey(r.id)
      && s'.counter == Number(r.id + 1)
      && s'.charCount == s.charCount[r.key := 0]
      && s'.activeFile == Number(r.id)
      && r.id in s'.sessions && s'.sessions[r.id] == SessionInfo(now, now)
      && s'.sessions.Keys == s.sessions.Keys + {r.id}
      && (forall id :: id in s.sessions && id != r.id ==>
            s'.sessions[id] == if s.activeFile == Number(id) then s.sessions[id].(lastActivity := now) else s.sessions[id])
      && s'.transcripts == s.transcripts
  {
    var (s1, current) := GetActiveSessionId(s, now);
    GetActiveOnlyRefreshes(s, now);
    var (s2, id) := NextSessionId(s1);
    ReadThenIncrement(s1);
    var s3 := IncrementSessionId(s2);
    assert s3 == s1.(counter := Number(id + 1));
  }

  // ---------------------------------------------------------------- transcribe_audio

  /**
   * A result whose stripped text is non-empty appends exactly that text plus a newline to
   * the session's transcript, adds exactly its length to the session's count, and reports
   * a milestone exactly when the count passed a multiple of 5000. Nothing else changes.
   */
  lemma AcceptSpeech(s: Store, key: string, raw: Option<string>, language: Option<string>, size: nat)
    requires Text.Strip(raw.GetOr("")) != ""
    ensures var text := Text.Strip(raw.GetOr(""));
      var (s', r) := AcceptResult(s, key, raw, language, size);
      && r.Transcribed? && r.text == text && Status(r) == 200
      && TranscriptOf(s', key) == TranscriptOf(s, key) + text + "\n"
      && CountOf(s', key) == CountOf(s, key) + |text| == r.charCount
      && (r.milestone <==> exists m :: Transcription.IsMultipleOfStep(m) && CountOf(s, key) < m <= r.charCount)
      && (forall k :: k != key ==> CountOf(s', k) == CountOf(s, k) && TranscriptOf(s', k) == TranscriptOf(s, k))
      && s'.counter == s.counter && s'.activeFile == s.activeFile && s'.sessions == s.sessions
  {
    var text := Text.Strip(raw.GetOr(""));
    Transcription.MilestoneCrossesMultiple(CountOf(s, key), |text|);
  }

  /** An empty or whitespace-only result changes nothing and is reported with an empty text. */
  lemma AcceptSilence(s: Store, key: string, raw: Option<string>, language: Option<string>, size: nat)
    requires forall i :: 0 <= i < |raw.GetOr("")| ==> Text.IsSpace(raw.GetOr("")[i])
    ensures var (s', r) := AcceptResult(s, key, raw, language, size);
      s' == s && r == NoSpeech(language.GetOr(UnknownLanguage), size) && ReplyText(r) == ""
  {
    var t := raw.GetOr("");
    assert forall i :: 0 <= i < |t| ==> Text.IsSpace(t[i]);
    Text.StripEmptyIffAllSpace(t);
    assert Text.Strip(t) == "";
    assert AcceptResult(s, key, raw, language, size) == (s, NoSpeech(language.GetOr(UnknownLanguage), size));
  }

  /**
   * Past the session and file-name checks, only a recognised non-empty text changes the
   * store, by recording that text; every other outcome leaves the store as it was.
   */
  lemma ProcessUploadEffects(s: Store, key: string, upload: Upload, recognise: Recogniser)
    ensures var (s', r) := ProcessUpload(s, key, upload, recognise);
      && (r.Transcribed? || r.NoSpeech? || r.InvalidAudio? || r.RecognitionError?)
      && (r.Transcribed? ==> r.text != "" && s' == RecordText(s, key, r.text).0)
      && (!r.Transcribed? ==> s' == s)
  {
    var size := |upload.contents|;
    if Audio.ValidateAudio(true, size, Some(Audio.ReadHeader(upload.contents))).Valid? {
      match recognise(Audio.ExtensionFor(upload.contentType), upload.contents)
      case Failed(message) =>
      case Recognized(text, language) =>
    }
  }

  /** The transcript only changes on a recognised, non-empty text; every error reply leaves counts and transcripts alone. */
  lemma TranscribeChangesDataOnlyOnSpeech(s: Store, now: int, audio: Option<Upload>, recognise: Recogniser)
    ensures var (s', r) := TranscribeAudio(s, now, audio, recognise);
      && s'.counter == s.counter && s'.activeFile == s.activeFile && s'.sessions.Keys == s.sessions.Keys
      && (!r.Transcribed? ==> s'.charCount == s.charCount && s'.transcripts == s.transcripts)
      && (r.Transcribed? <==> Status(r) == 200 && ReplyText(r) != "")
      && (r == NoActiveSession <==> !s.activeFile.Number?)
  {
    var (s1, active) := GetActiveSessionId(s, now);
    GetActiveOnlyRefreshes(s, now);
    if active.Some? && audio.Some? && audio.value.filename != "" {
      ProcessUploadEffects(s1, SessionKeys.SessionKey(active.value), audio.value, recognise);
    }
  }

  /**
   * An upload below 500 bytes or above 100 MiB is refused with 422 before the recogniser is
   * consulted: the outcome is the same whatever the recogniser would have answered.
   */
  lemma TranscribeRefusesBadSizes(s: Store, now: int, upload: Upload, recognise: Recogniser, other: Recogniser)
    requires s.activeFile.Number? && upload.filename != ""
    requires |upload.contents| < Audio.MinAudioSize || |upload.contents| > Audio.MaxAudioSize
    ensures var (s', r) := TranscribeAudio(s, now, Some(upload), recognise);
      && r.InvalidAudio? && Status(r) == 422 && r.fileSize == |upload.contents|
      && r.reason == (if |upload.contents| < Audio.MinAudioSize then Audio.TooSmall(|upload.contents|)
                      else Audio.TooLarge(|upload.contents|))
      && TranscribeAudio(s, now, Some(upload), other) == (s', r)
  {
  }

  /** Every upload within the size bounds reaches the recogniser, whatever its first bytes. */
  lemma TranscribeAcceptsInBoundSizes(s: Store, now: int, upload: Upload, recognise: Recogniser)
    requires s.activeFile.Number? && upload.filename != ""
    requires Audio.MinAudioSize <= |upload.contents| <= Audio.MaxAudioSize
    ensures var r := TranscribeAudio(s, now, Some(upload), recognise).1;
      r.Transcribed? || r.NoSpeech? || r.RecognitionError?
  {
    Audio.SavedFileValidIffSizeInBounds(upload.contents);
  }

  // ---------------------------------------------------------------- the store invariant

  /**
   * The store invariant: a session's count never exceeds the length of its transcript
   * file, and every tracked session id lies below the stored counter (so none is tracked
   * while the counter is missing or unreadable).
   */
  predicate Valid(s: Store) {
    && (forall key :: key in s.charCount ==> s.charCount[key] <= |TranscriptOf(s, key)|)
    && (forall id :: id in s.sessions ==> s.counter.Number? && id < s.counter.n)
  }

  /** A freshly started server (empty tables, whatever its files hold) satisfies the invariant. */
  lemma InitialValid(counter: StoredInt, activeFile: StoredInt, transcripts: map<string, string>)
    ensures Valid(Store(counter, activeFile, map[], map[], transcripts))
  {
  }

  /** Under the invariant a new session's id is not already tracked, so starting never overwrites another session's entry. */
  lemma NewIdIsFresh(s: Store, now: int)
    requires Valid(s) && StartSession(s, now).1.Started?
    ensures StartSession(s, now).1.id !in s.sessions
  {
    StartNew(s, now);
  }

  lemma StartPreservesValid(s: Store, now: int)
    requires Valid(s)
    ensures Valid(StartSession(s, now).0)
  {
    var (s', r) := StartSession(s, now);
    if r.Started? {
      StartNew(s, now);
      forall key | key in s'.charCount ensures s'.charCount[key] <= |TranscriptOf(s', key)| {
        if key != r.key {
          assert s'.charCount[key] == s.charCount[key];
        }
      }
    }
  }

  /** Recording a text grows the count and the transcript together, so the invariant is kept. */
  lemma RecordTextPreservesValid(s: Store, key: string, text: string)
    requires Valid(s)
    ensures Valid(RecordText(s, key, text).0)
  {
    var s' := RecordText(s, key, text).0;
    forall k | k in s'.charCount ensures s'.charCount[k] <= |TranscriptOf(s', k)| {
      if k != key {
        assert s'.charCount[k] == s.charCount[k] && TranscriptOf(s', k) == TranscriptOf(s, k);
      }
    }
  }

  lemma TranscribePreservesValid(s: Store, now: int, audio: Option<Upload>, recognise: Recogniser)
    requires Valid(s)
    ensures Valid(TranscribeAudio(s, now, audio, recognise).0)
  {
    var (s1, active) := GetActiveSessionId(s, now);
    GetActiveOnlyRefreshes(s, now);
    assert Valid(s1);
    if active.Some? && audio.Some? && audio.value.filename != "" {
      var key := SessionKeys.SessionKey(active.value);
      ProcessUploadEffects(s1, key, audio.value, recognise);
      var r := ProcessUpload(s1, key, audio.value, recognise).1;
      if r.Transcribed? {
        RecordTextPreservesValid(s1, key, r.text);
      }
    }
  }

  lemma HealthPreservesValid(s: Store, now: int)
    requires Valid(s)
    ensures Valid(HealthCheck(s, now).0)
  {
  }

  // ---------------------------------------------------------------- runs of requests

  /** One request to the server. */
  datatype Request =
    | StartRequest(now: int)
    | TranscribeRequest(now: int, audio: Option<Upload>, recognise: Recogniser)
    | HealthRequest(now: int)

  function Apply(s: Store, q: Request): Store {
    match q
    case StartRequest(now) => StartSession(s, now).0
    case TranscribeRequest(now, audio, recognise) => TranscribeAudio(s, now, audio, recognise).0
    case HealthRequest(now) => HealthCheck(s, now).0
  }

  /** The store after serving the requests in order. */
  function Run(s: Store, qs: seq<Request>): Store
    decreases |qs|
  {
    if qs == [] then s else Run(Apply(s, qs[0]), qs[1..])
  }

  /** The id of the session a request creates, if it creates one. */
  function Created(s: Store, q: Request): seq<int> {
    if q.StartRequest? && StartSession(s, q.now).1.Started? then [StartSession(s, q.now).1.id] else []
  }

  /** The ids of the new sessions created while serving the requests, in order. */
  function NewSessionIds(s: Store, qs: seq<Request>): seq<int>
    decreases |qs|
  {
    if qs == [] then [] else Created(s, qs[0]) + NewSessionIds(Apply(s, qs[0]), qs[1..])
  }

  /** Only a request that creates a session changes the counter, and it moves it one past the new id. */
  lemma ApplyCounter(s: Store, q: Request)
    ensures Created(s, q) == [] ==> Apply(s, q).counter == s.counter
    ensures Created(s, q) != [] ==>
      Created(s, q) == [NextId(s.counter)] && Apply(s, q).counter == Number(NextId(s.counter) + 1)
  {
    match q
    case StartRequest(now) =>
      if StartSession(s, now).1.Started? { StartNew(s, now); }
    case TranscribeRequest(now, audio, recognise) =>
      TranscribeChangesDataOnlyOnSpeech(s, now, audio, recognise);
    case HealthRequest(now) =>
  }

  /** Each id is one more than the one before. */
  predicate Consecutive(ids: seq<int>) {
    forall i :: 0 < i < |ids| ==> ids[i] == ids[i - 1] + 1
  }

  lemma ConsConsecutive(id: int, rest: seq<int>)
    requires Consecutive(rest) && (|rest| > 0 ==> rest[0] == id + 1)
    ensures Consecutive([id] + rest)
  {
    var ids := [id] + rest;
    forall i | 0 < i < |ids| ensures ids[i] == ids[i - 1] + 1 {
      if i > 1 {
        assert ids[i] == rest[i - 1] && ids[i - 1] == rest[i - 2];
      }
    }
  }

  /**
   * Over any sequence of requests, new sessions get consecutive ids starting at the
   * counter's value (1 without a usable counter file), and the counter ends one past the
   * last id handed out.
   */
  lemma {:induction false} NewSessionIdsConsecutive(s: Store, qs: seq<Request>)
    ensures Consecutive(NewSessionIds(s, qs))
    ensures var ids := NewSessionIds(s, qs);
      |ids| > 0 ==> ids[0] == NextId(s.counter) && Run(s, qs).counter == Number(ids[|ids| - 1] + 1)
    ensures NewSessionIds(s, qs) == [] ==> Run(s, qs).counter == s.counter
    decreases |qs|
  {
    if qs != [] {
      var s1 := Apply(s, qs[0]);
      var first := Created(s, qs[0]);
      var rest := NewSessionIds(s1, qs[1..]);
      assert NewSessionIds(s, qs) == first + rest;
      assert Run(s, qs) == Run(s1, qs[1..]);
      ApplyCounter(s, qs[0]);
      NewSessionIdsConsecutive(s1, qs[1..]);
      if first != [] {
        ConsConsecutive(first[0], rest);
        assert first + rest == [first[0]] + rest;
      } else {
        assert first + rest == rest;
      }
    }
  }

  /** Any sequence of requests keeps the store invariant. */
  lemma {:induction false} RunPreservesValid(s: Store, qs: seq<Request>)
    requires Valid(s)
    ensures Valid(Run(s, qs))
    decreases |qs|
  {
    if qs != [] {
      match qs[0] {
        case StartRequest(now) => StartPreservesValid(s, now);
        case TranscribeRequest(now, audio, recognise) => TranscribePreservesValid(s, now, audio, recognise);
        case HealthRequest(now) => HealthPreservesValid(s, now);
      }
      RunPreservesValid(Apply(s, qs[0]), qs[1..]);
    }
  }
}

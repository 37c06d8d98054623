/**
 * The Flask server's mutable state and its routes. The module-level tables and the
 * counter, active-session and transcript files become the fields of one `Backend`
 * object; each route is a method proved to perform exactly the transition the
 * `SessionSpec` function of the same name describes, and to keep the store invariant.
 */
module Server {
  import opened Wrappers
  import Text
  import Audio
  import SessionKeys
  import Transcription
  import SessionSpec
  import SessionProperties

  /**
   * The first loop of `cleanup_old_sessions`: walks the table and collects the ids whose
   * last activity is more than an hour before `now`.
   */
  method CollectExpired(sessions: map<int, SessionSpec.SessionInfo>, now: int) returns (expired: set<int>)
    ensures forall id :: id in expired <==> id in sessions && SessionSpec.IsIdle(sessions[id], now)
  {
    expired := {};
    var unvisited := sessions.Keys;
    while unvisited != {}
      invariant unvisited <= sessions.Keys
      invariant forall id :: id in expired <==> id in sessions && id !in unvisited && SessionSpec.IsIdle(sessions[id], now)
      decreases unvisited
    {
      // the loop guard, restated in the form the choice below needs
      if forall k :: k !in unvisited {
        assert false;
      }
      var id :| id in unvisited;
      if SessionSpec.IsIdle(sessions[id], now) {
        expired := expired + {id};
      }
      unvisited := unvisited - {id};
    }
  }

  class Backend {
    var counter: SessionSpec.StoredInt
    var activeFile: SessionSpec.StoredInt
    var activeSessions: map<int, SessionSpec.SessionInfo>
    var charCount: map<string, nat>
    var transcripts: map<string, string>

    /** The whole state as one value. */
    function Snapshot(): SessionSpec.Store
      reads this
    {
      SessionSpec.Store(counter, activeFile, activeSessions, charCount, transcripts)
    }

    ghost predicate Valid()
      reads this
    {
      SessionProperties.Valid(Snapshot())
    }

    /** A server process starts with empty tables; the files keep whatever earlier runs left in them. */
    constructor (counter: SessionSpec.StoredInt, activeFile: SessionSpec.StoredInt, transcripts: map<string, string>)
      ensures Snapshot() == SessionSpec.Store(counter, activeFile, map[], map[], transcripts)
      ensures Valid()
    {
      this.counter := counter;
      this.activeFile := activeFile;
      this.activeSessions := map[];
      this.charCount := map[];
      this.transcripts := transcripts;
      SessionProperties.InitialValid(counter, activeFile, transcripts);
    }

    method GetNextSessionId() returns (id: int)
      modifies this`counter
      ensures (Snapshot(), id) == SessionSpec.NextSessionId(old(Snapshot()))
    {
      match counter {
        case Missing =>
          counter := SessionSpec.Number(1);
          id := 1;
        case Number(n) =>
          id := n;
        case Unparsable =>
          id := 1;
      }
    }

    method IncrementSessionId()
      modifies this`counter
      ensures Snapshot() == SessionSpec.IncrementSessionId(old(Snapshot()))
    {
      var current := GetNextSessionId();
      counter := SessionSpec.Number(current + 1);
    }

    method SetActiveSessionId(id: int, now: int)
      modifies this`activeFile, this`activeSessions
      ensures Snapshot() == SessionSpec.SetActiveSessionId(old(Snapshot()), id, now)
    {
      activeFile := SessionSpec.Number(id);
      activeSessions := activeSessions[id := SessionSpec.SessionInfo(now, now)];
    }

    method GetActiveSessionId(now: int) returns (id: Option<int>)
      modifies this`activeSessions
      ensures (Snapshot(), id) == SessionSpec.GetActiveSessionId(old(Snapshot()), now)
    {
      if !activeFile.Number? {
        return None;
      }
      id := Some(activeFile.n);
      if activeFile.n in activeSessions {
        activeSessions := activeSessions[activeFile.n := activeSessions[activeFile.n].(lastActivity := now)];
      }
    }

    method CleanupOldSessions(now: int)
      modifies this`activeSessions
      ensures Snapshot() == SessionSpec.CleanupOldSessions(old(Snapshot()), now)
    {
      var expired := CollectExpired(activeSessions, now);
      var pending := expired;
      while pending != {}
        invariant pending <= expired
        invariant activeSessions == old(activeSessions) - (expired - pending)
        decreases pending
      {
        // the loop guard, restated in the form the choice below needs
        if forall k :: k !in pending {
          assert false;
        }
        var id :| id in pending;
        activeSessions := activeSessions - {id};
        pending := pending - {id};
      }
      ghost var live := SessionSpec.LiveSessions(old(activeSessions), now);
      assert forall id :: id in activeSessions <==> id in live;
      assert forall id :: id in activeSessions ==> activeSessions[id] == live[id];
      assert activeSessions == live;
    }

    /** `GET /health`. */
    method HealthCheck(now: int) returns (reply: SessionSpec.HealthReply)
      requires Valid()
      modifies this
      ensures (Snapshot(), reply) == SessionSpec.HealthCheck(old(Snapshot()), now)
      ensures Valid()
    {
      SessionProperties.HealthPreservesValid(Snapshot(), now);
      CleanupOldSessions(now);
      var active := GetActiveSessionId(now);
      reply := SessionSpec.HealthReply(active, |activeSessions|);
    }

    /** `POST /start_session`. */
    method StartSession(now: int) returns (reply: SessionSpec.StartReply)
      requires Valid()
      modifies this
      ensures (Snapshot(), reply) == SessionSpec.StartSession(old(Snapshot()), now)
      ensures Valid()
    {
      SessionProperties.StartPreservesValid(Snapshot(), now);
      var current := GetActiveSessionId(now);
      if current.Some? && current.value != 0 && current.value in activeSessions {
        var age := now - activeSessions[current.value].created;
        if age < SessionSpec.ReuseWindow {
          return SessionSpec.Reused(current.value, SessionKeys.SessionKey(current.value), age);
        }
      }
      var id := GetNextSessionId();
      IncrementSessionId();
      var key := SessionKeys.SessionKey(id);
      charCount := charCount[key := 0];
      SetActiveSessionId(id, now);
      reply := SessionSpec.Started(id, key);
    }

    /**
     * The success path of `transcribe_audio`: strips the recognised text and, when anything
     * is left, appends it as a line to the session's transcript and adds its length to the
     * session's count.
     */
    method AcceptResult(key: string, raw: Option<string>, language: Option<string>, size: nat)
      returns (reply: SessionSpec.Reply)
      modifies this`transcripts, this`charCount
      ensures (Snapshot(), reply) == SessionSpec.AcceptResult(old(Snapshot()), key, raw, language, size)
    {
      var text := Text.Strip(raw.GetOr(""));
      var lang := language.GetOr(SessionSpec.UnknownLanguage);
      if text != "" {
        var written := if key in transcripts then transcripts[key] else "";
        transcripts := transcripts[key := written + text + "\n"];
        var prev := if key in charCount then charCount[key] else 0;
        charCount := charCount[key := prev + |text|];
        reply := SessionSpec.Transcribed(text, Transcription.MilestoneHit(prev, |text|), charCount[key], lang, size);
      } else {
        reply := SessionSpec.NoSpeech(lang, size);
      }
    }

    /** `POST /transcribe`: `audio` is the uploaded file part, `recognise` the speech recogniser. */
    method TranscribeAudio(now: int, audio: Option<SessionSpec.Upload>, recognise: SessionSpec.Recogniser)
      returns (reply: SessionSpec.Reply)
      requires Valid()
      modifies this
      ensures (Snapshot(), reply) == SessionSpec.TranscribeAudio(old(Snapshot()), now, audio, recognise)
      ensures Valid()
    {
      SessionProperties.TranscribePreservesValid(Snapshot(), now, audio, recognise);
      var sessionId := GetActiveSessionId(now);
      if sessionId.None? {
        return SessionSpec.NoActiveSession;
      }
      var key := SessionKeys.SessionKey(sessionId.value);
      if audio.None? {
        return SessionSpec.NoAudioFile;
      }
      var upload := audio.value;
      if upload.filename == "" {
        return SessionSpec.EmptyFilename;
      }
      var ext := Audio.ExtensionFor(upload.contentType);
      var size := |upload.contents|;
      var validation := Audio.ValidateAudio(true, size, Some(Audio.ReadHeader(upload.contents)));
      if validation.Invalid? {
        return SessionSpec.InvalidAudio(validation.reason, size, upload.contentType.GetOr(""));
      }
      match recognise(ext, upload.contents) {
        case Failed(message) =>
          reply := SessionSpec.RecognitionError(Transcription.ClassifyError(message), size);
        case Recognized(raw, language) =>
          reply := AcceptResult(key, raw, language, size);
      }
    }
  }
}

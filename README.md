# Vocuro speech-to-text backend, modelled in Dafny

Vocuro's backend is a small Flask server (`Vocuro-Backend/speech_to_text.py`) that turns
uploaded audio chunks into text and keeps a per-session record of the text. This project
models its session bookkeeping and its three routes:

- `POST /start_session` reuses the active session if it was created less than 30 seconds
  ago. Otherwise it takes the next id from the counter file, increments the counter, resets
  the session's character count and makes the new id active.
- `POST /transcribe` resolves the active session and checks the upload. It picks a file
  extension from the content type and validates the saved file by size and header. It then
  hands the audio to the speech recogniser and does one of two things:
  - on non-empty text, it appends the text to the session's transcript file, adds its length
    to the session's character count and reports a milestone whenever the count crosses a
    multiple of 5000;
  - on a recogniser failure, it classifies the error message into a reply and a status code.
- `GET /health` drops sessions idle for more than an hour and reports the active session and
  the number of tracked sessions.

Layout:

- `wrappers.dfy`: the `Option` type.
- `text.dfy`: Python's `str.strip()`, `str.lower()` and the `in` substring test.
- `session_keys.dfy`: the `f"{id:03d}"` session key.
- `audio.dfy`: `validate_audio_file` and the choice of file extension.
- `transcription.dfy`: the milestone test and the classification of recogniser errors.
- `session_spec.dfy`: the whole server state as a value `Store`, with one function per
  helper and per route. Each route returns the new store and the reply.
- `session_properties.dfy`: the lemmas about those functions:
  - how each route changes the store;
  - the store invariant every route keeps;
  - that new sessions get consecutive ids over any sequence of requests.
- `server.dfy`: the server as a class `Backend`.
  - Its fields are the counter file, the active-session file, the `active_sessions` and
    `char_count` dictionaries and the transcript files.
  - Every method is proved to make exactly the transition of its `SessionSpec` counterpart
    (`GetNextSessionId` that of `NextSessionId`, the others that of the function of the same
    name). The three route methods, `HealthCheck`, `StartSession` and `TranscribeAudio`, are
    also proved to keep the invariant. The helpers need not keep it on their own:
    `SetActiveSessionId` may track an id at or above the counter, and `StartSession` keeps
    the invariant only because it increments the counter first.

The model follows the code on a few points where the code's behaviour is easy to misread:

- A session is reused only if its *creation* time is less than 30 seconds old. Reuse still
  refreshes its last activity.
- The reuse test is `if current_session and ...`, so a session whose id is 0 is never
  reused.
- `f"{id:03d}"` counts a minus sign towards the width, so id -5 has the key `-05`. The
  counter file can hold any integer.
- The milestone fires on *every* crossing of a multiple of 5000, not once per session.
- Each recognised text is appended followed by a newline, so a transcript is its texts in
  order, one per line.
- The validator's lower size bound is 500 bytes.
- An unrecognised header is accepted as long as the file has at least 4 bytes.

## Model

| member | source | states |
|---|---|---|
| Text.TrimStart | Vocuro-Backend/speech_to_text.py:300 | the result is a suffix of the input, everything removed is whitespace, and a non-empty result does not start with whitespace |
| Text.TrimEnd | Vocuro-Backend/speech_to_text.py:300 | the result is a prefix of the input, everything removed is whitespace, and a non-empty result does not end with whitespace |
| Text.Strip | Vocuro-Backend/speech_to_text.py:300 | no contract of its own: `TrimEnd(TrimStart(s))`; `Text.StripIsTrimmedSlice` and `Text.StripEmptyIffAllSpace` state what it returns |
| Text.StripIsTrimmedSlice | Vocuro-Backend/speech_to_text.py:300 | `strip()` returns a contiguous slice of the text; everything outside the slice is whitespace; a non-empty result has non-whitespace ends; the result is empty iff the text is all whitespace |
| Text.StripEmptyIffAllSpace | Vocuro-Backend/speech_to_text.py:300-307 | the stripped text is falsy exactly when the recognised text is all whitespace |
| Text.ContainsIsSubstring | Vocuro-Backend/speech_to_text.py:266-271 | the `in` test on strings holds exactly when the needle occurs at some position of the haystack |
| Text.Contains | Vocuro-Backend/speech_to_text.py:266-271 | no contract of its own: Python's `sub in s`; `Text.ContainsIsSubstring` proves it holds exactly when `sub` occurs in `s` |
| Text.ContainsAt | Vocuro-Backend/speech_to_text.py:343 | a needle occurring at a known position is found by `in` |
| Text.Lower | Vocuro-Backend/speech_to_text.py:349 | lower-casing keeps the length of the message |
| Text.LowerSlice | Vocuro-Backend/speech_to_text.py:349 | lower-casing commutes with slicing |
| SessionKeys.Digits | Vocuro-Backend/speech_to_text.py:231 | the decimal digits of a natural number: at least one digit, no leading zero, at most three digits below 1000 |
| SessionKeys.Zeros | Vocuro-Backend/speech_to_text.py:231 | the zero fill: only '0' characters, as many as the missing width and none when the width is already reached |
| SessionKeys.SessionKey | Vocuro-Backend/speech_to_text.py:231 | no contract of its own: `f"{id:03d}"`; `SessionKeys.KeyRoundTrip`, `KeysDistinct` and the three `KeyShape` lemmas state its properties |
| SessionKeys.KeyRoundTrip | Vocuro-Backend/speech_to_text.py:231 | reading a session key back as an integer gives the id it was formatted from, for every integer id including negative ones |
| SessionKeys.KeysDistinct | Vocuro-Backend/speech_to_text.py:231-232 | distinct ids get distinct keys, so two sessions never share a count or a transcript file |
| SessionKeys.KeyShapeSmall | Vocuro-Backend/speech_to_text.py:253 | ids 0..999 give exactly three digits that read back as the id |
| SessionKeys.KeyShapeLarge | Vocuro-Backend/speech_to_text.py:253 | ids of 1000 and more give their plain digits, with no zero fill |
| SessionKeys.KeyShapeNegative | Vocuro-Backend/speech_to_text.py:253 | a negative id gives a '-' then only digits, zero-filled to a total width of 3: exactly 3 characters for -99..-1, at least 3 otherwise |
| SessionKeys.ParseZeroFilled | Vocuro-Backend/speech_to_text.py:231 | leading zeros of the fill do not change the number the digits denote |
| SessionKeys.ParseNegative | Vocuro-Backend/speech_to_text.py:231 | a negative id's key (sign, zero fill to width 2, digits) reads back as that id |
| Audio.ReadHeader | Vocuro-Backend/speech_to_text.py:94-95 | reading 12 bytes gives the first 12 bytes, or the whole file if it is shorter |
| Audio.ValidateAudio | Vocuro-Backend/speech_to_text.py:80-111 | each of the five refusals gets its own reason, checked in the source's order: a missing file, a file under 500 bytes, a file over 100 MiB, a header that could not be read, and a header under 4 bytes; a file is accepted iff it exists, is within the bounds and has at least 4 header bytes; the label is WebM iff the EBML magic leads, MP4 iff not WebM and `ftyp` is at offset 4, WAV iff neither and `RIFF` leads, unknown otherwise |
| Audio.SavedFileValidIffSizeInBounds | Vocuro-Backend/speech_to_text.py:280-291 | an uploaded file that was saved passes validation exactly when its size is within the bounds, and its header is then 12 bytes long |
| Audio.ExtensionFor | Vocuro-Backend/speech_to_text.py:264-271 | no contract of its own: the suffix chosen from the content type; `Audio.ExtensionFollowsContentType` states its properties |
| Audio.ExtensionFollowsContentType | Vocuro-Backend/speech_to_text.py:264-271 | the extension is always one of the four; `.mp4` exactly when "mp4" occurs in the content type; `.wav` exactly when "wav" occurs and "mp4" does not; `.mp3` exactly when "mpeg" or "mp3" occurs and neither of the others does; `.webm` otherwise, in particular with no content type |
| Transcription.MilestoneCrossesMultiple | Vocuro-Backend/speech_to_text.py:317 | the milestone flag is set exactly when a multiple of 5000 lies in (previous count, new count] |
| Transcription.MilestoneRefires | Vocuro-Backend/speech_to_text.py:317 | the milestone fires again at the next multiple of 5000: it is not a one-time event |
| Transcription.MilestoneHit | Vocuro-Backend/speech_to_text.py:317 | no contract of its own: `new // 5000 > prev // 5000`; `Transcription.MilestoneCrossesMultiple` and `MilestoneRefires` state its meaning |
| Transcription.ClassifyError | Vocuro-Backend/speech_to_text.py:343-366 | no contract of its own: the `error_type` chosen from the message; `Transcription.ClassificationPrecedence` and `FfmpegMatchedInAnyCase` state its properties |
| Transcription.HttpStatus | Vocuro-Backend/speech_to_text.py:343-366 | no contract of its own: 422 for the three recognised causes, 500 otherwise; stated together with `ClassifyError` by `Transcription.ClassificationPrecedence` |
| Transcription.ClassificationPrecedence | Vocuro-Backend/speech_to_text.py:343-366 | an "EBML header parsing failed" message is WebM corruption whatever else it says; otherwise "ffmpeg" in any case is an unsupported format; otherwise "load audio" in any case is a load failure; the status is 500 exactly when none of the three matches, and the reply then carries the message |
| Transcription.FfmpegMatchedInAnyCase | Vocuro-Backend/speech_to_text.py:349-354 | a message containing "FFmpeg" in any capitalisation is answered 422, as WebM corruption or unsupported format |
| SessionSpec.NextSessionId | Vocuro-Backend/speech_to_text.py:35-47 | no contract of its own: the counter read; `SessionProperties.CounterDefaultsToOne` and `ReadThenIncrement` state its properties |
| SessionSpec.IncrementSessionId | Vocuro-Backend/speech_to_text.py:49-52 | no contract of its own: the counter write; `SessionProperties.CounterDefaultsToOne` and `ReadThenIncrement` state its properties |
| SessionSpec.SetActiveSessionId | Vocuro-Backend/speech_to_text.py:54-62 | no contract of its own: the active-file write and the new table entry; `SessionProperties.StartNew` state its properties |
| SessionSpec.GetActiveSessionId | Vocuro-Backend/speech_to_text.py:64-78 | no contract of its own: the active-file read and the refresh; `SessionProperties.GetActiveOnlyRefreshes` state its properties |
| SessionSpec.CleanupOldSessions | Vocuro-Backend/speech_to_text.py:113-125 | no contract of its own: the removal of idle sessions; `SessionProperties.CleanupRemovesExactlyIdle` state its properties |
| SessionSpec.HealthCheck | Vocuro-Backend/speech_to_text.py:200-210 | no contract of its own: the health route; `SessionProperties.HealthPreservesValid` state its properties |
| SessionSpec.StartSession | Vocuro-Backend/speech_to_text.py:212-245 | no contract of its own: the start route; `SessionProperties.StartReusesIff`, `StartReuse`, `StartNew` and `StartPreservesValid` state its properties |
| SessionSpec.TranscribeAudio | Vocuro-Backend/speech_to_text.py:247-261 | no contract of its own: the transcribe route up to the upload checks; `SessionProperties.TranscribeChangesDataOnlyOnSpeech`, `TranscribeRefusesBadSizes`, `TranscribeAcceptsInBoundSizes` and `TranscribePreservesValid` state its properties |
| SessionSpec.ProcessUpload | Vocuro-Backend/speech_to_text.py:263-366 | no contract of its own: validation, recognition and the error classification; `SessionProperties.ProcessUploadEffects` state its properties |
| SessionSpec.AcceptResult | Vocuro-Backend/speech_to_text.py:300-336 | no contract of its own: the handling of a recognised result; `SessionProperties.AcceptSpeech` and `AcceptSilence` state its properties |
| SessionSpec.RecordText | Vocuro-Backend/speech_to_text.py:307-317 | no contract of its own: the transcript append and the count update; `SessionProperties.AcceptSpeech` and `RecordTextPreservesValid` state its properties |
| SessionProperties.CounterDefaultsToOne | Vocuro-Backend/speech_to_text.py:35-52 | without a usable counter file the next id is 1; a missing file is created holding 1; after the increment the counter holds 2 |
| SessionProperties.ReadThenIncrement | Vocuro-Backend/speech_to_text.py:49-52 | reading the counter and then incrementing it returns the stored id, leaves id + 1 in the counter and changes nothing else |
| SessionProperties.GetActiveOnlyRefreshes | Vocuro-Backend/speech_to_text.py:64-78 | the active id is the one in the active file (none if the file is missing or unparsable); no table entry is added or removed, and only the active id's last activity is set to now |
| SessionProperties.CleanupRemovesExactlyIdle | Vocuro-Backend/speech_to_text.py:113-125 | an entry survives exactly when it was active within the last 3600 seconds; survivors are unchanged; nothing else in the state changes |
| SessionProperties.StartReusesIff | Vocuro-Backend/speech_to_text.py:216-219 | start reuses a session exactly when the active file names a non-zero tracked id created less than 30 seconds ago |
| SessionProperties.StartReuse | Vocuro-Backend/speech_to_text.py:216-226 | on reuse the reply names the active id, its key and an age below 30; counter, counts, transcripts and active file are unchanged; only the session's last activity is refreshed |
| SessionProperties.StartNew | Vocuro-Backend/speech_to_text.py:216-242 | a new session takes the counter's id, leaves id + 1 in the counter, resets its count to 0, becomes active with created = last activity = now, adds exactly that id to the table, refreshes the last activity of the previously active session if it is tracked, keeps every other entry, and leaves transcripts alone |
| SessionProperties.NewIdIsFresh | Vocuro-Backend/speech_to_text.py:229-233 | under the store invariant a new session's id is not already tracked |
| SessionProperties.AcceptSpeech | Vocuro-Backend/speech_to_text.py:300-328 | a non-empty stripped text is returned with status 200, appended with a newline to that session's transcript, and added in length to its count; the milestone is set exactly when the count crossed a multiple of 5000; no other session, file or table entry changes |
| SessionProperties.AcceptSilence | Vocuro-Backend/speech_to_text.py:329-336 | an all-whitespace or missing text changes nothing and is answered with an empty text and the detected language, or "unknown" |
| SessionProperties.ProcessUploadEffects | Vocuro-Backend/speech_to_text.py:283-366 | once the session and file name are known, only a recognised non-empty text changes the state, by recording exactly that text |
| SessionProperties.TranscribeChangesDataOnlyOnSpeech | Vocuro-Backend/speech_to_text.py:247-366 | transcription never touches the counter, the active file or the set of tracked sessions; every reply other than a transcription leaves counts and transcripts alone; a transcription is exactly a 200 reply with non-empty text; "no active session" is answered exactly when the active file has no id |
| SessionProperties.TranscribeRefusesBadSizes | Vocuro-Backend/speech_to_text.py:284-291 | an upload under 500 bytes or over 100 MiB is refused with 422, its size and the reason, whatever the recogniser would answer |
| SessionProperties.TranscribeAcceptsInBoundSizes | Vocuro-Backend/speech_to_text.py:284-298 | an upload within the bounds always reaches the recogniser, whatever its header |
| SessionProperties.InitialValid | Vocuro-Backend/speech_to_text.py:29-31 | a freshly started server, with empty tables, satisfies the store invariant whatever its files hold |
| SessionProperties.StartPreservesValid | Vocuro-Backend/speech_to_text.py:212-245 | start keeps the invariant: counts never exceed their transcripts' lengths and every tracked id lies below the counter |
| SessionProperties.RecordTextPreservesValid | Vocuro-Backend/speech_to_text.py:307-315 | recording a text keeps the invariant |
| SessionProperties.TranscribePreservesValid | Vocuro-Backend/speech_to_text.py:247-366 | transcription keeps the invariant |
| SessionProperties.HealthPreservesValid | Vocuro-Backend/speech_to_text.py:200-210 | the health check keeps the invariant |
| SessionProperties.ApplyCounter | Vocuro-Backend/speech_to_text.py:228-233 | only a request that creates a session moves the counter, and it moves it one past the new id |
| SessionProperties.NewSessionIdsConsecutive | Vocuro-Backend/speech_to_text.py:35-52 | over any sequence of requests the new session ids are consecutive, start at the stored counter (1 without a usable file), and the counter ends one past the last id handed out |
| SessionProperties.RunPreservesValid | Vocuro-Backend/speech_to_text.py:199-366 | any sequence of requests keeps the store invariant |
| Server.CollectExpired | Vocuro-Backend/speech_to_text.py:115-121 | the loop collects exactly the ids whose last activity is more than 3600 seconds before now |
| Server.Backend.constructor | Vocuro-Backend/speech_to_text.py:29-31 | the server starts with empty session and count tables and satisfies the invariant |
| Server.Backend.GetNextSessionId | Vocuro-Backend/speech_to_text.py:35-47 | reads the counter as `SessionSpec.NextSessionId` does, creating a missing counter file holding 1 |
| Server.Backend.IncrementSessionId | Vocuro-Backend/speech_to_text.py:49-52 | writes the counter read plus one |
| Server.Backend.SetActiveSessionId | Vocuro-Backend/speech_to_text.py:54-62 | writes the active file and tracks the id with created = last activity = now |
| Server.Backend.GetActiveSessionId | Vocuro-Backend/speech_to_text.py:64-78 | reads the active file and refreshes the tracked session's last activity |
| Server.Backend.CleanupOldSessions | Vocuro-Backend/speech_to_text.py:113-125 | deletes the collected ids one by one; the table ends up holding exactly the sessions that were not idle |
| Server.Backend.HealthCheck | Vocuro-Backend/speech_to_text.py:200-210 | performs the transition of `SessionSpec.HealthCheck` and keeps the invariant |
| Server.Backend.StartSession | Vocuro-Backend/speech_to_text.py:212-245 | performs the transition of `SessionSpec.StartSession` and keeps the invariant |
| Server.Backend.AcceptResult | Vocuro-Backend/speech_to_text.py:300-336 | appends and counts a non-empty stripped text as `SessionSpec.AcceptResult` does |
| Server.Backend.TranscribeAudio | Vocuro-Backend/speech_to_text.py:247-366 | performs the transition of `SessionSpec.TranscribeAudio` and keeps the invariant |

## Left out

- The Whisper model and `transcribe_with_fallback` (lines 127-197): direct transcription, the
  ffmpeg conversion to WAV and the lenient retry are one opaque function parameter. It maps
  the extension and the bytes to recognised text and language, or to an error message.
- Flask, CORS and `jsonify`: replies are datatypes carrying the fields and the status code.
  The constant fields are not modelled: "status": "healthy", the model name, the messages
  and "status": "new"/"reused".
- `server_time` in the health reply, and the `confidence` field, which is always 0.0.
- The clock: `time.time()` is an integer parameter `now` in seconds. Ages and idle times are
  therefore whole seconds, not floats. All clock reads within one request are one value:
  in `start_session` the reads at lines 74, 218 and 60-61, and in `health_check` the reads
  at lines 115 and 74.
- File I/O:
  - the counter and active-session files are values that are missing, hold an integer or
    are unparsable, and `int(f.read().strip())` is modelled by that classification;
  - the transcript files are a map from session key to contents;
  - saving the upload to a temporary file is modelled as its bytes and size;
  - the temporary file's removal and the `makedirs` call are not modelled.
- The failure paths of the file operations are not modelled:
  - the 500 replies of `start_session` (lines 243-245);
  - the outer `Server error` of `transcribe_audio` (lines 368-370);
  - the "File does not exist" and "Cannot read file" validation results.
    `Audio.ValidateAudio` models those two results, but the route always passes an existing,
    readable file;
  - an OS error other than `ValueError` or `FileNotFoundError` while reading the
    active-session file, such as a permission error. `get_active_session_id` does not catch
    it (line 77). In `transcribe_audio` (line 249, before the `try`) and in `health_check`
    (line 207) no handler in the file catches it, so Flask answers with its default 500.
- SessionSpec.ProcessUpload: an exception raised after the recogniser has answered is not
  modelled. This covers a failure of `.strip()` on the result (line 300) and a failed append
  to the transcript file (lines 309-310). In the code the inner handler (lines 338-366)
  classifies such an exception like a recogniser error, as 422 or 500. In the model a
  recognised result never becomes a `RecognitionError`.
- `session_lock` and threading: every request is one atomic step. Races between concurrent
  requests are not modelled.
- Logging and `print` are not modelled, including the hex dump of an unknown header.
- Server.CollectExpired: the expired ids are a set, not a list in dictionary order. The
  order only affects log output.
- Text.Lower: `lower()` is modelled for ASCII letters only, so non-ASCII
  capitals in an error message are not folded.
- The model's file name is always a string. The code treats a `None` file name like a
  non-empty one, since only the empty string is refused.
- A recogniser result whose `text` or `language` is not a string is not modelled.
- The client-side recording pipeline is not part of this model.

# Voice translation and recording bot — verified model

This project models the core of a Discord bot that joins a voice channel and
either records the meeting or translates what people say, live. It covers:

- **Live-translation buffering.** Per-SSRC sample buffers, the SSRC-to-user
  map and the segmentation sweep that hands out an utterance once its speaker
  has been silent for more than 1.5 s and it holds at least 24000 samples.
  Also the guild-to-session manager and the voice event handler that feeds it.
- **Recording capture.** Per-speaker append buffers, the artifact names
  `finalize` writes (`{dir}/{guild}_{speaker}_{%Y%m%d_%H%M%S}.wav`), the
  recording manager, the flush of handler buffers, and the recording event
  handler.
- **Whisper-side helpers.** Decimation from 48 kHz to 16 kHz, the
  language-id table, segment joining, the local Japanese/English guess, the
  hallucination filter and the sample-rate dispatch. The model itself is left
  uninterpreted.
- **DeepL-side helpers.** Input sanitising, the language-code table, the
  endpoint choice, and the three-attempt retry/backoff loop over an abstract
  sequence of replies.
- **User language preferences.** The (speak, translate-to) pair of each user
  and the full language names.
- **Bot glue.**
  - Reading the speaker id back out of an artifact's file name, which round-trips with `finalize`'s naming.
  - The speaker-labelled meeting transcript.
  - `/translate_set` validation and `/translate_start` gating.
  - The 🔴 reaction toggle.
  - The gates of the per-utterance translation pipeline.

The files follow the source's layout:

- `voice_translator.dfy` (module `VoiceTranslator`)
- `voice_recorder.dfy` (`VoiceRecorder`)
- `transcriber.dfy` (`Transcriber`)
- `translator.dfy` (`Translator`)
- `user_settings.dfy` (`UserSettings`)
- `main.dfy` (`Bot`)

Three modules hold shared pieces:

- `types.dfy` (`Types`): ids, `Option`/`Result`, 16-bit samples.
- `text.dfy` (`Text`): Rust's `trim`, `split`, `lines` and `contains`, plus the kana/kanji classes.
- `decimal.dfy` (`Decimal`): `u64` display and `parse::<u64>`.

Objects that the source updates in place are classes with `modifies` frames:

- buffers, sessions and managers;
- the two voice handlers;
- the settings manager;
- the reaction-control map.

Each method is tied to a value-level specification function (`WithAudio`,
`AfterSweep`, `Appended`, `RecordTick`, `Translation`, `MinutesOf`, …), and
the lemmas state the promised properties about those functions.

Time is an explicit `now` parameter. Locks are read as sequential, atomic
steps. A `HashMap` iteration order is an arbitrary choice (`:|`), reported
through a ghost `order` sequence. twilight's `Id::new(0)` panics; each place
that can reach it returns an explicit "panicked" outcome.

## Model

| member | source | states |
|---|---|---|
| VoiceTranslator.TranslationBuffer.constructor | src/voice_translator.rs:35-42 | a new buffer belongs to the given user, holds no samples, is not speaking and was last active now |
| VoiceTranslator.TranslationBuffer.AddSamples | src/voice_translator.rs:44-48 | samples become old samples followed by the new ones, in order; last activity becomes now; the speaking flag is set; the owner is unchanged |
| VoiceTranslator.TranslationBuffer.MarkSilence | src/voice_translator.rs:50-52 | only the speaking flag changes, to false |
| VoiceTranslator.TranslationBuffer.Clear | src/voice_translator.rs:69-72 | samples become empty and speaking false, while owner and last activity stay as they were |
| VoiceTranslator.ShouldFlushMeans | src/voice_translator.rs:55-62 | an empty buffer never flushes, at any elapsed time; a non-empty one flushes iff the elapsed milliseconds strictly exceed the threshold |
| VoiceTranslator.ReadyMeans | src/voice_translator.rs:134-138 | a buffer passes the sweep's test iff more than 1500 ms have elapsed since its last activity and it holds at least 24000 samples (which also makes it non-empty) |
| VoiceTranslator.ShortBufferNeverReady | src/voice_translator.rs:65-67 | a buffer below the minimum sample count is never ready, however long it has been silent |
| VoiceTranslator.WithAudio | src/voice_translator.rs:105-116 | after `add_audio` the SSRC maps to the new user (last write wins); the SSRC's buffer is created if missing, keeps its original owner if it existed, holds old samples followed by the new ones and was last active now; every other buffer is unchanged |
| VoiceTranslator.WithAudioBuffers | src/voice_translator.rs:113-115 | `WithAudio`'s buffers are the two steps of the source: `entry(..).or_insert_with(new)`, then `add_samples` |
| VoiceTranslator.TranslationSession.constructor | src/voice_translator.rs:89-102 | a new session for the guild, channel and pair, with no buffers and an empty SSRC map |
| VoiceTranslator.TranslationSession.AddAudio | src/voice_translator.rs:105-116 | the session's buffers and SSRC map become exactly `WithAudio` of the old ones |
| VoiceTranslator.TranslationSession.BufferFor | src/voice_translator.rs:113-114 | the SSRC's buffer exists afterwards: the old one if there was one, otherwise a fresh buffer for the user; nothing else changes |
| VoiceTranslator.TranslationSession.AppendTo | src/voice_translator.rs:115 | only the SSRC's buffer changes, by `add_samples` |
| VoiceTranslator.TranslationSession.MarkSilence | src/voice_translator.rs:119-124 | the SSRC's buffer, if any, gets its speaking flag cleared; every other buffer and the missing-SSRC case are unchanged |
| VoiceTranslator.TranslationSession.GetReadyBuffers | src/voice_translator.rs:127-147 | the SSRCs handed out are exactly the ready, mapped ones, each once, each reported as (mapped user, its samples before clearing); afterwards the buffers equal `AfterSweep`: every handed-out buffer cleared, every other buffer untouched |
| VoiceTranslator.TranslationSession.TakeIfReady | src/voice_translator.rs:138-142 | one loop step: a ready buffer on a mapped SSRC is reported with the mapped user and cleared; otherwise nothing is reported and nothing changes |
| VoiceTranslator.AfterSweep | src/voice_translator.rs:137-144 | the sweep keeps the set of SSRCs (no buffer is removed) |
| VoiceTranslator.PartlySweptStep | src/voice_translator.rs:137-144 | visiting one more SSRC changes that SSRC's entry alone |
| VoiceTranslator.SweepProgressStep | src/voice_translator.rs:137-144 | one sweep step hands out the SSRC and clears its buffer exactly when it is in the ready set, and leaves the handed-out list alone otherwise |
| VoiceTranslator.SweepComplete | src/voice_translator.rs:137-146 | once every SSRC has been visited, the handed-out SSRCs are the ready set and the buffers are `AfterSweep` |
| VoiceTranslator.ShortUtteranceStays | src/voice_translator.rs:134-138 | 16000 samples after 1600 ms of silence are not handed out, and that buffer is left exactly as it was |
| VoiceTranslator.LongUtteranceFlushed | src/voice_translator.rs:134-141 | 30000 samples on a mapped SSRC after 1600 ms of silence are handed out, and that buffer is emptied |
| VoiceTranslator.TranslationManager.constructor | src/voice_translator.rs:157-161 | no active sessions |
| VoiceTranslator.TranslationManager.StartTranslation | src/voice_translator.rs:163-174 | a fresh, empty session for the guild, channel and pair replaces any session the guild had; the guild is translating afterwards |
| VoiceTranslator.TranslationManager.StopTranslation | src/voice_translator.rs:176-186 | returns Some(the session) and removes it when the guild had one, otherwise None; the guild is not translating afterwards |
| VoiceTranslator.TranslationManager.AddAudioToSession | src/voice_translator.rs:193-204 | with a session, that session's view becomes `WithAudio` of its old view; without one, nothing changes |
| VoiceTranslator.TranslationManager.GetReadyTranslations | src/voice_translator.rs:206-216 | without a session, the result is empty and nothing changes; with one, it is that session's sweep |
| VoiceTranslator.TickStop | src/voice_translator.rs:256-280 | the position of the first tick entry without decoded audio, where `Id::new(0)` panics; every earlier entry has audio |
| VoiceTranslator.TickStepAt | src/voice_translator.rs:257-271 | a decoded tick entry changes only the buffer of its own SSRC, and only when that SSRC is mapped and its audio non-empty |
| VoiceTranslator.TickAppendsInOrder | src/voice_translator.rs:256-271 | over a whole tick, a mapped SSRC's buffer grows by exactly its non-empty audio chunks, in tick order |
| VoiceTranslator.TickIgnoresUnmapped | src/voice_translator.rs:260-271 | audio on an SSRC the handler has not mapped is dropped, and that SSRC's buffer is left as it was |
| VoiceTranslator.VoiceTranslateHandler.constructor | src/voice_translator.rs:228-238 | an empty SSRC map for the given manager and guild |
| VoiceTranslator.VoiceTranslateHandler.Act | src/voice_translator.rs:242-288 | a SpeakingStateUpdate with a user id overwrites the SSRC's mapping (id 0 panics), and without one changes nothing; a tick applies `ApplyTick` up to the first entry without audio, where it panics; other events change no state |
| VoiceTranslator.VoiceTranslateHandler.HandleTick | src/voice_translator.rs:255-282 | the tick arm: panics iff some entry has no decoded audio; the session becomes `ApplyTick` of the entries before it |
| VoiceTranslator.VoiceTranslateHandler.FeedEntry | src/voice_translator.rs:257-271 | one decoded entry: the session becomes `TickStep` of its old view |
| VoiceRecorder.YearText | src/voice_recorder.rs:57 | chrono's `%Y` of a year in 0..9999 is four digits |
| VoiceRecorder.TimestampChars | src/voice_recorder.rs:57 | the `%Y%m%d_%H%M%S` stamp is made of digits, the one `_`, and a year's sign |
| VoiceRecorder.ArtifactStemFields | src/voice_recorder.rs:52-58 | split on `_`, an artifact stem's first field is the guild's decimal text and its second the speaker's |
| VoiceRecorder.ArtifactPathInjective | src/voice_recorder.rs:52-58 | two speakers of one recording with the same path are the same speaker |
| VoiceRecorder.ArtifactPathsDistinct | src/voice_recorder.rs:52-58 | distinct speakers of one recording get distinct paths |
| VoiceRecorder.DigitsHaveNoUnderscore | src/voice_recorder.rs:53-56 | decimal ids hold no `_`, so the field separator is unambiguous |
| VoiceRecorder.Appended | src/voice_recorder.rs:36-41 | `add_audio` on values: the speaker's buffer (created empty if new) gets the samples appended; every other speaker is unchanged |
| VoiceRecorder.AppendAllContents | src/voice_recorder.rs:36-41 | after N appends a speaker's buffer is its old contents followed by the chunks in order, and its length grows by the sum of their lengths |
| VoiceRecorder.AppendAllOthers | src/voice_recorder.rs:36-41 | appends to one speaker leave every other speaker's presence and buffer unchanged |
| VoiceRecorder.VisitStep | src/voice_recorder.rs:47-50 | one `finalize` step lists a speaker iff its buffer is non-empty |
| VoiceRecorder.ArtifactsSnoc | src/voice_recorder.rs:52-72 | one more listed speaker adds its path and a mono 48 kHz 16-bit artifact holding its samples |
| VoiceRecorder.RecordingSession.constructor | src/voice_recorder.rs:21-34 | a new session for the guild, channel and directory, started now, with no buffers |
| VoiceRecorder.RecordingSession.AddAudio | src/voice_recorder.rs:36-41 | the buffers become `Appended` of the old ones |
| VoiceRecorder.RecordingSession.Finalize | src/voice_recorder.rs:43-80 | exactly one path per non-empty buffer, each named `{dir}/{guild}_{speaker}_{stamp}.wav` with a mono 48 kHz 16-bit int artifact of that speaker's samples; paths are distinct; the list is empty iff every buffer is empty; buffers are not modified |
| VoiceRecorder.FlushedKeepsOthers | src/voice_recorder.rs:147-158 | a user that no drained SSRC maps to keeps the buffer it had |
| VoiceRecorder.FlushedSingle | src/voice_recorder.rs:147-158 | a user that exactly one drained SSRC maps to gets that SSRC's samples appended |
| VoiceRecorder.RecordTickContents | src/voice_recorder.rs:203-224 | over a tick, each user's buffer grows by exactly the non-empty audio of the SSRCs mapped to that user, in tick order; unmapped SSRCs contribute nothing |
| VoiceRecorder.RecordingManager.constructor | src/voice_recorder.rs:90-96 | no active sessions |
| VoiceRecorder.RecordingManager.StartRecording | src/voice_recorder.rs:98-108 | a fresh, empty session replaces any recording the guild had; the guild is recording afterwards |
| VoiceRecorder.RecordingManager.StopRecording | src/voice_recorder.rs:110-120 | returns Ok(Some(session)) and removes it when present, otherwise Ok(None), and never fails; the guild is not recording afterwards |
| VoiceRecorder.RecordingManager.AddAudioToSession | src/voice_recorder.rs:122-132 | with a session, its buffers become `Appended`; without one, nothing changes |
| VoiceRecorder.RecordingManager.FlushAudioBuffers | src/voice_recorder.rs:139-160 | the handler's buffer map ends empty and its SSRC map unchanged; every drained non-empty buffer with a mapping is appended to the mapped user in the session (`Flushed`), while unmapped or empty ones are dropped; with no session nothing else changes |
| VoiceRecorder.VoiceReceiveHandler.constructor | src/voice_recorder.rs:172-182 | both maps empty |
| VoiceRecorder.VoiceReceiveHandler.Act | src/voice_recorder.rs:187-232 | a SpeakingStateUpdate with a user id sets the SSRC's mapping (last write wins; id 0 panics), and without one leaves the map unchanged; a tick makes the session's buffers `RecordTick` of the old ones; ClientDisconnect and other events change nothing |
| VoiceRecorder.VoiceReceiveHandler.RecordEntries | src/voice_recorder.rs:204-223 | the tick loop: the session's buffers become `RecordTick` of the old ones |
| Transcriber.GetLangStrFromId | src/transcriber.rs:14-16 | an in-range id gives the table entry; a negative or too-large id (after the `usize` cast) gives "en" |
| Transcriber.LanguageTable | src/transcriber.rs:4-12 | the table has 99 codes, with "en" at 0, "ko" at 5 and "ja" at 7 |
| Transcriber.Downsample | src/transcriber.rs:222-227 | the output has length ceil(n/3), and `out[i] == in[3*i]` |
| Transcriber.DownsampleAppend | src/transcriber.rs:222-227 | a prefix whose length is a multiple of 3 decimates on its own: `Downsample(a + b) == Downsample(a) + Downsample(b)` |
| Transcriber.NonBlank | src/transcriber.rs:108-113 | the kept segments are never blank, and there are no more of them than segments |
| Transcriber.AssembledIsJoin | src/transcriber.rs:108-114 | the loop's string is the non-blank segments joined by single spaces, plus one trailing space |
| Transcriber.AssembledStep | src/transcriber.rs:110-113 | appending a non-blank segment and a space keeps the string equal to the join of the non-blank segments |
| Transcriber.ExtractedText | src/transcriber.rs:104-117 | `extract_text` is the trim of the non-blank segments joined by single spaces |
| Transcriber.AllBlankNoText | src/transcriber.rs:104-117 | when every segment is blank the text is empty |
| Transcriber.ExtractText | src/transcriber.rs:104-117 | the segment loop computes the trimmed assembly of the segments |
| Transcriber.DetectLanguageLocal | src/transcriber.rs:120-143 | "ja" iff the text is non-empty and ten times its hiragana, katakana and kanji count exceeds its length; "en" otherwise, including for empty text |
| Transcriber.DetectedLanguage | src/transcriber.rs:48-79 | with a hint, the language is the hint; without one, a successful detection is one of Whisper's codes |
| Transcriber.Transcription | src/transcriber.rs:43-102 | empty audio gives ("", "en") without running the model; with a hint on non-empty audio the returned language is the hint; without one it is a table code; the text has no whitespace at either end |
| Transcriber.TranscribeWithLanguage | src/transcriber.rs:43-102 | the two passes and the segment loop compute `Transcription` |
| Transcriber.Transcribe | src/transcriber.rs:36-39 | the text part of `Transcription`, with its error passed on |
| Transcriber.Normalize | src/transcriber.rs:200-203 | the normalised text holds no whitespace and none of `。、！!？?`, and is no longer than the input |
| Transcriber.NormalizeAppend | src/transcriber.rs:200-203 | normalising is done character by character, so it distributes over concatenation |
| Transcriber.NormalizeKeeps | src/transcriber.rs:200-203 | text without dropped characters is left as it is |
| Transcriber.NormalizeIdempotent | src/transcriber.rs:200-203 | normalising twice is normalising once |
| Transcriber.NormalizeAround | src/transcriber.rs:200-203 | text surrounded by droppable characters normalises to itself |
| Transcriber.NormalizeDropsAll | src/transcriber.rs:200-203 | a string of droppable characters normalises to nothing |
| Transcriber.IsLikelyHallucination | src/transcriber.rs:199-220 | false whenever the clip is at least 1200 ms and not low-energy, whatever the text; otherwise true iff the normalised text contains one of the four stock phrases |
| Transcriber.FarewellExamples | src/transcriber.rs:205-219 | "お疲れ様でした。" on an 800 ms clip is filtered; the same text on a 5000 ms loud clip is not |
| Transcriber.SpacedPhraseExample | src/transcriber.rs:200-219 | on a quiet clip a stock phrase is caught with surrounding space and punctuation |
| Transcriber.ShortTextNeverHallucination | src/transcriber.rs:212-219 | a text shorter than every stock phrase is never filtered |
| Transcriber.ReadSamples | src/transcriber.rs:239 | `filter_map(Result::ok)` keeps at most the samples read |
| Transcriber.TranscribeWavFile | src/transcriber.rs:229-250 | an open error is passed on; 48000 Hz input is decimated, 16000 Hz input is used as is, and each is transcribed with the hint "ja"; any other rate is the "Unsupported sample rate" error |
| Translator.NewTranslator | src/translator.rs:25-40 | the key is kept; the free endpoint is chosen iff the key with trailing whitespace trimmed ends with ":fx", and the pro endpoint otherwise |
| Translator.EndpointExamples | src/translator.rs:26-30 | "test:fx" and "test:fx \n" use the free endpoint; "test:fx2" does not |
| Translator.KeepAllowedChars | src/translator.rs:44-45 | the filter keeps only characters of the input that are not control characters, or are `\n` or `\t` |
| Translator.KeepAllowedKeepsAll | src/translator.rs:44-45 | a text with nothing to drop passes the filter whole |
| Translator.KeepAllowedAppend | src/translator.rs:44-45 | the filter works character by character |
| Translator.Take | src/translator.rs:46 | `take(n)` is the prefix of length min(n, length) |
| Translator.ReplaceCharChars | src/translator.rs:48-49 | a replacement leaves only characters of the text other than the replaced one, or characters of the replacement |
| Translator.ReplaceCharAbsent | src/translator.rs:48-49 | replacing an absent character changes nothing |
| Translator.ReplaceCharAppend | src/translator.rs:48-49 | replacement distributes over concatenation |
| Translator.SanitizeInput | src/translator.rs:43-50 | the result holds no `<` or `>`, and no control character other than `\n` and `\t`; a clean text comes back as its first 2000 characters |
| Translator.SanitizeBracketed | src/translator.rs:43-50 | a clean text in angle brackets comes back with the brackets escaped as `&lt;` and `&gt;` |
| Translator.SanitizeDropsControl | src/translator.rs:45 | a disallowed control character anywhere is simply removed |
| Translator.SanitizeTagExample | src/translator.rs:188 | "<script>" becomes "&lt;script&gt;" |
| Translator.SanitizeControlExample | src/translator.rs:195 | letters around a NUL come back without it, as "hello\x00world" becomes "helloworld" |
| Translator.SanitizeLengthExample | src/translator.rs:191-192 | 3000 × 'a' sanitises to 2000 characters |
| Translator.Lowercase | src/translator.rs:53 | `to_lowercase` maps each character, keeping the length |
| Translator.MapLanguageCode | src/translator.rs:52-64 | a success is one of JA, KO, EN-US, EN-GB; a failure is "Unsupported language code: " followed by the input as given |
| Translator.MapLanguageCodeNormalises | src/translator.rs:53 | inputs equal after trimming and lowercasing map alike |
| Translator.MapByLowercase | src/translator.rs:53-62 | a trimmed name maps iff its lowercase form is in the table, and then to that entry |
| Translator.MapLanguageCodeTable | src/translator.rs:54-58 | every table row maps: ja/japanese/jp→JA, ko/korean/kr→KO, en/english/en-us/en_us→EN-US, en-gb/en_gb→EN-GB |
| Translator.MapLanguageCodeIdempotent | src/translator.rs:52-64 | mapping a mapped code again gives the same result |
| Translator.CodeMapsToItself | src/translator.rs:53-58 | JA, KO, EN-US and EN-GB map to themselves |
| Translator.AttemptStep | src/translator.rs:99-134 | an attempt retries iff it is not the third and the reply is a transport error or status 429/500/502/503/504; status 456 always ends with the quota error; success needs a 2xx reply |
| Translator.Retries | src/translator.rs:86-135 | at most three attempts; before attempt k+1 it sleeps 200·k ms; every attempt before the last was a retry, and the last decided the result |
| Translator.Translation | src/translator.rs:67-138 | blank sanitised text gives Ok("") with no attempt and no language check; a run with no attempt either succeeds with "" or fails as an unsupported language because one of the names does not map; never more than three attempts |
| Translator.TranslationCases | src/translator.rs:67-93 | for non-blank text: an unmapped source name fails with its own error and no attempt; otherwise an unmapped target name does; when both map, the run is exactly the attempt loop started at attempt 1 |
| Translator.AcceptedNamesNeverUnsupported | src/translator.rs:79-80 | when both languages map, `translate` never fails with the unsupported-language error |
| Translator.RetriesUnfold | src/translator.rs:124-127 | a retried attempt records its delay and continues with the next attempt |
| Translator.Translate | src/translator.rs:67-138 | the `for attempt` loop computes `Translation`: result, attempts and delays |
| Translator.Attempt | src/translator.rs:99-134 | one iteration of the loop body decides as `AttemptStep` |
| Translator.TransientThenSuccess | src/translator.rs:83-127 | two transient failures then a success return the trimmed first translation after three attempts and delays of 200 and 400 ms |
| Translator.QuotaNotRetried | src/translator.rs:130-132 | a 456 on the first attempt ends at once with the quota error |
| Translator.PersistentFailure | src/translator.rs:103-107 | three transient failures give an error after three attempts and delays of 200 and 400 ms |
| Translator.RetriesOnlyTransient | src/translator.rs:103-127 | every attempt that was followed by another had a transient reply and was followed by a delay of 200·k ms |
| Translator.DetectLanguageLocal | src/translator.rs:141-164 | "Japanese" iff the text is non-empty and ten times its Japanese-character count exceeds its length, "English" otherwise |
| Translator.DetectLanguageExamples | src/translator.rs:171-181 | "こんにちは世界" is Japanese and "Hello World" is English |
| Text.Trim | src/transcriber.rs:116 | `trim()` has no whitespace at either end and is empty iff the string is all whitespace |
| Text.Split | src/main.rs:222 | `split('_')` gives at least one piece, none holding the separator |
| Text.SplitJoin | src/main.rs:222 | splitting the join of separator-free pieces gives the pieces back |
| Text.Lines | src/main.rs:525 | no line of `lines()` holds a line feed |
| Text.MostlyJapaneseBounds | src/transcriber.rs:135-138 | empty text is never mostly Japanese; all-Japanese non-empty text always is; text with no Japanese never is |
| Text.CountJapanese | src/transcriber.rs:121-133 | the three counters sum to the text's hiragana, katakana and kanji count |
| Decimal.ToDecimal | src/voice_recorder.rs:55-56 | an id's `Display` is non-empty digits with no leading zero |
| Decimal.ParseU64 | src/main.rs:224 | after an optional leading `+`, an empty or non-digit remainder is rejected; a digit string parses iff its value is below 2^64, and then to exactly that value |
| Decimal.ParseDisplayed | src/main.rs:224 | a `u64` printed in decimal parses back to itself |
| Decimal.ZeroPad | src/voice_recorder.rs:57 | zero-padding gives digits of exactly the width for a value that fits |
| UserSettings.NewSetting | src/user_settings.rs:17-22 | source and target are stored verbatim |
| UserSettings.ToFullName | src/user_settings.rs:24-31 | ja gives Japanese, ko gives Korean, en gives English (names that are not codes themselves); any other string is returned unchanged |
| UserSettings.ToFullNameInjective | src/user_settings.rs:24-31 | distinct short codes have distinct full names |
| UserSettings.SettingExample | src/user_settings.rs:114-120 | ("ja", "ko") reads back as Japanese to Korean |
| UserSettings.UserSettingsManager.constructor | src/user_settings.rs:48-54 | the manager starts from the map the settings file held |
| UserSettings.UserSettingsManager.SetUserLanguage | src/user_settings.rs:76-88 | the user's entry becomes (source, target), overwriting any earlier one; every other entry stays |
| UserSettings.UserSettingsManager.GetUserSetting | src/user_settings.rs:90-93 | Some(the entry) iff the user has one, None otherwise |
| UserSettings.UserSettingsManager.RemoveUserSetting | src/user_settings.rs:95-101 | the user's entry is gone and every other entry stays |
| UserSettings.UserSettingsManager.ListAllSettings | src/user_settings.rs:103-106 | every user with a setting is listed exactly once, each with its setting |
| Bot.LastComponent | src/main.rs:218-220 | the file name found is one of the path's pieces and is not empty, `.` or `..` |
| Bot.LastDot | src/main.rs:219 | the position found is a `.` with no `.` after it |
| Bot.StemOf | src/main.rs:219 | a stem is a prefix of the file name |
| Bot.ExtractUserIdFromFilename | src/main.rs:215-229 | no stem, or fewer than two `_` fields, gives no speaker; otherwise the speaker is the second field parsed as `u64` (a parsed 0 panics in `Id::new`); an unparsable field gives no speaker |
| Bot.SplitChars | src/main.rs:222 | a split piece holds only characters of the split string |
| Bot.NoUnderscoreNoSpeaker | src/main.rs:222-227 | a path with no `_` yields no speaker |
| Bot.ArtifactStemPlain | src/voice_recorder.rs:52-58 | an artifact stem holds neither `/` nor `.` |
| Bot.ExtractArtifactSpeaker | src/main.rs:215-229 | for every path `finalize` builds for a speaker, the extracted speaker is that speaker |
| Bot.ArtifactFileStem | src/main.rs:218-219 | the file stem of an artifact's path is its `{guild}_{speaker}_{stamp}` stem |
| Bot.FileNameAfterSlash | src/main.rs:218 | after the last `/`, a non-empty name other than `.` or `..` is the file name |
| Bot.StemOfDotted | src/main.rs:219 | a name with a single `.` after a non-empty part has that part as its stem |
| Bot.ToDecimalNonEmpty | src/voice_recorder.rs:55-56 | an id's decimal text is never empty |
| Bot.LabelledTextLines | src/main.rs:523-528 | splitting a labelled non-empty transcription on line feeds gives one `**[name]**: line` per line of the transcription, in order |
| Bot.PanicStays | src/main.rs:491-492 | once a zero id has panicked the loop, later artifacts change nothing |
| Bot.AssembleTranscript | src/main.rs:488-536 | the file loop computes `MinutesOf`: for each artifact in turn, non-empty text is labelled and appended with a blank line, empty text adds nothing, and an error adds "File {path}: {error}" |
| Bot.FileStepTranscript | src/main.rs:520-535 | one artifact with a usable id keeps the no-panic state and leaves the transcript empty iff it was empty and the artifact yielded no text |
| Bot.EmptyTranscriptIff | src/main.rs:488-536 | when no artifact name carries a zero id, the loop never panics, and the transcript is empty iff no artifact yielded non-empty text |
| Bot.LastString | src/main.rs:904-918 | the value found is the string of a matching option; none found means no option of that name has a string value |
| Bot.ReadLanguageOptions | src/main.rs:904-918 | the option loop keeps the last string `source` and the last string `target` |
| Bot.ValidateLanguages | src/main.rs:920-944 | accepted iff both languages are present and each is ja, ko or en, and then they are exactly the given ones; a missing language is reported as such; anything else is invalid |
| Bot.HandleTranslateSet | src/main.rs:887-994 | an unidentified user is refused; no command data gives no reply; otherwise the reply is `ValidateLanguages`, and only on acceptance is the user's setting stored, with the settings unchanged otherwise |
| Bot.FullNameAccepted | src/main.rs:1050-1054 | for ja, ko and en the full name passed to `translate` maps, and to the same DeepL code as the short code |
| Bot.FullNameCode | src/user_settings.rs:24-31 | the full name of each short code maps to JA, KO or EN-US |
| Bot.ShortCodeCode | src/translator.rs:55-57 | each short code maps to JA, KO or EN-US |
| Bot.ToggleRoundTrip | src/main.rs:376 | a 🔴 added then removed on a control that was off leaves the controls as they were, so recording can start again |
| Bot.ControlsKeepKeys | src/main.rs:438-452 | neither handler registers or forgets a control, and a second add changes nothing |
| Bot.ReactionControls.constructor | src/main.rs:639-640 | no control messages yet |
| Bot.ReactionControls.Register | src/main.rs:639-640 | `/record` registers its control message as off |
| Bot.ReactionControls.ReactionAdd | src/main.rs:277-427 | outside a guild nothing happens; a recording starts iff the emoji is 🔴, the key is a registered control that is off, the user is in a voice channel and the join succeeds; then a fresh recording of the user's channel, with no buffers and started now, replaces any session the guild had, the other guilds' sessions are untouched, and the control is set on; and otherwise the controls and the recorder are unchanged |
| Bot.ReactionControls.ReactionRemove | src/main.rs:430-476 | no guild is the "No guild" error; a 🔴 removed on a control that is on sets it off, keeping the key, and stops the guild's recording, returning the session; every other reaction changes nothing |
| Bot.HandleTranslateStart | src/main.rs:685-832 | outside a guild, while recording, and while already translating the named refusal is given, in that order; a translation starts iff none of those hold, the user is identified and in a voice channel, and the join succeeds; then a fresh ja→en session with no buffers and no timestamps on that channel is added for the guild, with the other sessions untouched; otherwise the sessions do not change |
| Bot.Uppercase | src/main.rs:1067 | `to_uppercase` maps each character, keeping the length |
| Bot.ProcessUtterance | src/main.rs:1027-1074 | no setting ends processing; fewer than 24000 samples end it; with a setting and enough samples the outcome is that of transcribing the down-sampled audio with the setting's source code as hint; a posted utterance has non-blank original text and its tags are the upper-cased codes |
| Bot.AfterTranscription | src/main.rs:1046-1074 | a transcription error ends as that error; blank text ends with nothing said; non-blank text goes to translation unchanged; a posted utterance has non-blank original text and upper-cased tags |
| Bot.Translated | src/main.rs:1050-1074 | posts iff `translate` on the setting's full names succeeds, with its output as the translation, the transcription as the original and the upper-cased codes as tags; otherwise fails with `translate`'s error |
| Bot.PipelineLanguagesAccepted | src/main.rs:1050-1054 | for a setting whose codes are ja, ko or en, the pipeline never fails with the unsupported-language error |
| Bot.TranslatedAccepted | src/main.rs:1050-1054 | the full names of a short-code setting pass `translate`'s language check |

## Left out

- `src/summarizer.rs` (a chat-completion HTTP client) and `src/commands.rs`
  (interaction-response plumbing around the recording manager) are not part
  of this model.
- Discord, songbird and HTTP I/O: sending messages, embeds and interaction
  responses, joining and leaving voice, the `voice_handlers` and
  `translate_handlers` maps, and the gateway loop. A join outcome, the users'
  voice channels and the guild members are parameters (`joinOk`,
  `voiceStates`, `members`).
- `process_translation_loop`'s 500 ms polling loop and its `tokio::spawn`. One
  ready utterance is modelled by `ProcessUtterance`.
- Reaction removal: the flush of the handler's buffers and the leaving of the
  voice channel are left out. So is the later `finalize`, transcription and
  summary; the transcript loop is modelled on its own as `AssembleTranscript`.
- The user-name cache of the transcript loop is a pure map of members. Fetch
  failures appear only as the "User {id}" fallback of a missing member.
- Concurrency: locks and `Arc`s are read as sequential, atomic steps.
- Floating point: `convert_i16_to_f32` is left implicit, since the samples
  keep their order and count. `compute_rms` and `rms < 0.01` are a
  `lowEnergy` boolean.
- Whisper: creating the state, the passes, language detection and the segment
  getters are uninterpreted functions of the audio.
  `transcribe_with_timestamps` is not part of this model.
- hound WAV writing and reading are abstract. `finalize` returns the artifacts
  it would write, and I/O errors while writing are not modelled. Temp-file
  deletion, directory creation and the JSON load/save of user settings are
  left out.
- The HTTP request itself is an abstract reply per attempt: URL, headers,
  form, the JSON decoding error and the real sleeps. The fallback error after
  the loop cannot be reached, because the last attempt always returns.
- Wall-clock time is an explicit parameter (milliseconds, or local date-time
  fields for file names).
- `HashMap` iteration order is an arbitrary choice. Properties are stated for
  every order.
- Path parsing covers Unix paths only; Windows prefixes are not modelled.
- The `NonZeroU64::new` failure in `/translate_start` cannot happen, since
  channel ids are non-zero.
- Error messages are constructors of result datatypes, not strings, except
  where the text is observable: "No guild", "Unsupported language code: …",
  "File {path}: {error}", and "Unsupported sample rate".
- Translator.Lowercase: models `to_lowercase` only for ASCII letters and the
  Kelvin sign. No other character's lowercase form can turn a string into a
  table entry.
- Bot.Uppercase: models `to_uppercase` for ASCII letters only. This is enough
  for the ja, ko and en codes the tags carry.
- VoiceRecorder.VoiceReceiveHandler.Act: the handler never fills its
  `audio_buffers`, so `flush_audio_buffers` drains an empty map in practice.
  Both are modelled as written.

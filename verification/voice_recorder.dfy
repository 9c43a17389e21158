/**
 * Recording capture: per-speaker sample buffers, the artifact naming of
 * `finalize`, the guild-to-recording registry, the drain of the handler's
 * SSRC buffers and the recording voice event handler.
 *
 * WAV encoding is abstract: `finalize` yields the artifact paths, and a
 * ghost list of what each artifact holds. The locks are left out, so every
 * operation is atomic.
 */
module VoiceRecorder {
  import opened Types
  import opened Text
  import opened Decimal

  /** A local wall-clock time, as `chrono::DateTime<Local>` exposes its fields. */
  datatype DateTime = DateTime(year: int, month: nat, day: nat, hour: nat, minute: nat, second: nat)

  /** chrono's `%Y`: four digits, zero-padded; a sign before years outside 0..9999. */
  function YearText(year: int): (s: string)
    ensures 0 <= year <= 9999 ==> |s| == 4 && AllDigits(s)
  {
    if 0 <= year <= 9999 then ZeroPad(year, 4)
    else if year > 9999 then "+" + ToDecimal(year)
    else "-" + ZeroPad(-year, 4)
  }

  /** `start_time.format("%Y%m%d_%H%M%S")`. */
  function Timestamp(t: DateTime): string
  {
    YearText(t.year) + ZeroPad(t.month, 2) + ZeroPad(t.day, 2) + "_"
    + ZeroPad(t.hour, 2) + ZeroPad(t.minute, 2) + ZeroPad(t.second, 2)
  }

  /** The characters a timestamp is made of: digits, the `_` between date and time, and a year's sign. */
  predicate StampChar(c: char)
  {
    IsDigit(c) || c == '_' || c == '+' || c == '-'
  }

  lemma TimestampChars(t: DateTime)
    ensures forall i :: 0 <= i < |Timestamp(t)| ==> StampChar(Timestamp(t)[i])
  {
  }

  /** An artifact's file stem: `{guild}_{speaker}_{timestamp}`. */
  function ArtifactStem(guild: GuildId, speaker: UserId, start: DateTime): string
  {
    ToDecimal(guild) + "_" + ToDecimal(speaker) + "_" + Timestamp(start)
  }

  /** The path `finalize` writes for one speaker: `{output_dir}/{guild}_{speaker}_{timestamp}.wav`. */
  function ArtifactPath(outputDir: string, guild: GuildId, speaker: UserId, start: DateTime): string
  {
    outputDir + "/" + ArtifactStem(guild, speaker, start) + ".wav"
  }

  /** Split on `_`, a stem's first field is the guild and its second the speaker. */
  lemma ArtifactStemFields(guild: GuildId, speaker: UserId, start: DateTime)
    ensures var parts := Split(ArtifactStem(guild, speaker, start), '_');
      |parts| >= 2 && parts[0] == ToDecimal(guild) && parts[1] == ToDecimal(speaker)
  {
    var g, s, t := ToDecimal(guild), ToDecimal(speaker), Timestamp(start);
    assert ArtifactStem(guild, speaker, start) == g + ['_'] + (s + ['_'] + t);
    SplitAppend(g, '_', s + ['_'] + t);
    SplitAppend(s, '_', t);
    DigitsHaveNoUnderscore(g);
    DigitsHaveNoUnderscore(s);
    SplitNoSeparator(g, '_');
    SplitNoSeparator(s, '_');
  }

  /** Different speakers of one recording get different paths. */
  lemma ArtifactPathInjective(outputDir: string, guild: GuildId, s1: UserId, s2: UserId, start: DateTime)
    requires ArtifactPath(outputDir, guild, s1, start) == ArtifactPath(outputDir, guild, s2, start)
    ensures s1 == s2
  {
    var n := |outputDir| + 1;
    var p1, p2 := ArtifactPath(outputDir, guild, s1, start), ArtifactPath(outputDir, guild, s2, start);
    assert ArtifactStem(guild, s1, start) == p1[n..|p1| - 4];
    assert ArtifactStem(guild, s2, start) == p2[n..|p2| - 4];
    ArtifactStemFields(guild, s1, start);
    ArtifactStemFields(guild, s2, start);
    DecimalRoundTrip(s1);
    DecimalRoundTrip(s2);
  }

  /** Distinct speakers of one recording give distinct paths. */
  lemma ArtifactPathsDistinct(outputDir: string, guild: GuildId, start: DateTime, speakers: seq<UserId>, paths: seq<string>)
    requires Distinct(speakers) && |paths| == |speakers|
    requires forall i :: 0 <= i < |speakers| ==> paths[i] == ArtifactPath(outputDir, guild, speakers[i], start)
    ensures Distinct(paths)
  {
    forall i, j | 0 <= i < |paths| && 0 <= j < |paths| && i != j
      ensures paths[i] != paths[j]
    {
      if paths[i] == paths[j] {
        ArtifactPathInjective(outputDir, guild, speakers[i], speakers[j], start);
      }
    }
  }

  /** Decimal digits hold no field separator. */
  lemma DigitsHaveNoUnderscore(s: string)
    requires AllDigits(s)
    ensures '_' !in s
  {
  }

  datatype SampleFormat = Int | Float

  /** hound's `WavSpec`. */
  datatype WavSpec = WavSpec(channels: nat, sampleRate: nat, bitsPerSample: nat, sampleFormat: SampleFormat)

  /** Every artifact is mono, 48 kHz, 16-bit integer PCM. */
  const ArtifactSpec: WavSpec := WavSpec(1, 48000, 16, Int)

  /** What one artifact holds: its path, its format and its samples. */
  datatype WavFile = WavFile(path: string, spec: WavSpec, samples: seq<i16>)

  /** A speaker's buffer, or an empty one when the speaker has none. */
  function BufferOf(m: map<UserId, seq<i16>>, k: UserId): seq<i16>
  {
    if k in m then m[k] else []
  }

  /** `add_audio` on values: the samples go to the end of the speaker's buffer, created empty on first use. */
  function Appended(m: map<UserId, seq<i16>>, k: UserId, samples: seq<i16>): (r: map<UserId, seq<i16>>)
    ensures r.Keys == m.Keys + {k}
    ensures r[k] == BufferOf(m, k) + samples
    ensures forall j :: j in m && j != k ==> r[j] == m[j]
  {
    m[k := BufferOf(m, k) + samples]
  }

  /** The buffers after appending `chunks` to one speaker, in order. */
  function AppendAll(m: map<UserId, seq<i16>>, k: UserId, chunks: seq<seq<i16>>): map<UserId, seq<i16>>
  {
    if chunks == [] then m else Appended(AppendAll(m, k, chunks[..|chunks| - 1]), k, chunks[|chunks| - 1])
  }

  /**
   * After N appends a speaker's buffer is the old one followed by every
   * appended chunk in order, so its length is the sum of theirs.
   */
  lemma {:induction false} AppendAllContents(m: map<UserId, seq<i16>>, k: UserId, chunks: seq<seq<i16>>)
    ensures BufferOf(AppendAll(m, k, chunks), k) == BufferOf(m, k) + Flatten(chunks)
    ensures |BufferOf(AppendAll(m, k, chunks), k)| == |BufferOf(m, k)| + TotalLength(chunks)
  {
    if chunks == [] {
      assert BufferOf(m, k) + [] == BufferOf(m, k);
    } else {
      var init, last := chunks[..|chunks| - 1], chunks[|chunks| - 1];
      AppendAllContents(m, k, init);
      var prev := AppendAll(m, k, init);
      assert BufferOf(AppendAll(m, k, chunks), k) == BufferOf(prev, k) + last;
      assert Flatten(chunks) == Flatten(init) + last;
      assert BufferOf(m, k) + Flatten(init) + last == BufferOf(m, k) + (Flatten(init) + last);
    }
    FlattenLength(chunks);
  }

  /** Appending to one speaker leaves every other speaker as it was. */
  lemma {:induction false} AppendAllOthers(m: map<UserId, seq<i16>>, k: UserId, chunks: seq<seq<i16>>, j: UserId)
    requires j != k
    ensures var r := AppendAll(m, k, chunks); (j in r <==> j in m) && BufferOf(r, j) == BufferOf(m, j)
  {
    if chunks != [] {
      AppendAllOthers(m, k, chunks[..|chunks| - 1], j);
    }
  }

  /** The speakers `finalize` writes an artifact for: those with a non-empty buffer. */
  function NonEmptySpeakers(m: map<UserId, seq<i16>>): set<UserId>
  {
    set u | u in m && m[u] != []
  }

  /**
   * The artifacts written for `speakers`, one each, in order: the path of
   * each names its speaker, and the file holds that speaker's samples in
   * the artifact format.
   */
  ghost predicate Artifacts(m: map<UserId, seq<i16>>, outputDir: string, guild: GuildId, start: DateTime,
                            speakers: seq<UserId>, paths: seq<string>, written: seq<WavFile>)
  {
    && |paths| == |speakers| == |written|
    && forall i :: 0 <= i < |speakers| ==>
         && speakers[i] in m
         && paths[i] == ArtifactPath(outputDir, guild, speakers[i], start)
         && written[i] == WavFile(paths[i], ArtifactSpec, m[speakers[i]])
  }

  /** The speakers already visited with a non-empty buffer, each listed once. */
  ghost predicate Visited(m: map<UserId, seq<i16>>, remaining: set<UserId>, order: seq<UserId>)
  {
    Distinct(order) && Elements(order) == NonEmptySpeakers(m) - remaining
  }

  lemma VisitStep(m: map<UserId, seq<i16>>, remaining: set<UserId>, order: seq<UserId>, u: UserId)
    requires Visited(m, remaining, order) && u in remaining && u in m
    ensures m[u] != [] ==> Visited(m, remaining - {u}, order + [u])
    ensures m[u] == [] ==> Visited(m, remaining - {u}, order)
  {
    if m[u] != [] {
      assert u !in Elements(order);
      ElementsAppend(order, u);
    }
  }

  lemma ArtifactsSnoc(m: map<UserId, seq<i16>>, outputDir: string, guild: GuildId, start: DateTime,
                      speakers: seq<UserId>, paths: seq<string>, written: seq<WavFile>, u: UserId)
    requires Artifacts(m, outputDir, guild, start, speakers, paths, written) && u in m
    ensures var p := ArtifactPath(outputDir, guild, u, start);
      Artifacts(m, outputDir, guild, start, speakers + [u], paths + [p], written + [WavFile(p, ArtifactSpec, m[u])])
  {
  }

  class RecordingSession {
    const guildId: GuildId
    const channelId: ChannelId
    const startTime: DateTime
    const outputDir: string
    var speakerBuffers: map<UserId, seq<i16>>

    /** `RecordingSession::new` at local time `now`; directory creation is not part of this model. */
    constructor (guildId: GuildId, channelId: ChannelId, outputDir: string, now: DateTime)
      ensures this.guildId == guildId && this.channelId == channelId
      ensures this.outputDir == outputDir && startTime == now
      ensures speakerBuffers == map[]
    {
      this.guildId := guildId;
      this.channelId := channelId;
      this.outputDir := outputDir;
      startTime := now;
      speakerBuffers := map[];
    }

    /** `add_audio`: extend the speaker's buffer, creating it empty on first use. */
    method AddAudio(speaker: UserId, samples: seq<i16>)
      modifies this
      ensures speakerBuffers == Appended(old(speakerBuffers), speaker, samples)
    {
      var buffer := if speaker in speakerBuffers then speakerBuffers[speaker] else [];
      speakerBuffers := speakerBuffers[speaker := buffer + samples];
    }

    /**
     * `finalize`: one artifact per non-empty buffer, in the map's iteration
     * order (`order` names the speakers), each at its `ArtifactPath` and
     * holding that speaker's samples; empty buffers are skipped and no
     * buffer changes.
     */
    method Finalize(outputDir: string) returns (files: seq<string>, ghost written: seq<WavFile>, ghost order: seq<UserId>)
      ensures Distinct(order) && Elements(order) == NonEmptySpeakers(speakerBuffers)
      ensures Artifacts(speakerBuffers, outputDir, guildId, startTime, order, files, written)
      ensures Distinct(files)
      ensures files == [] <==> NonEmptySpeakers(speakerBuffers) == {}
    {
      files, written, order := [], [], [];
      var remaining := speakerBuffers.Keys;
      while remaining != {}
        invariant remaining <= speakerBuffers.Keys
        invariant Visited(speakerBuffers, remaining, order)
        invariant Artifacts(speakerBuffers, outputDir, guildId, startTime, order, files, written)
        decreases remaining
      {
        var speaker :| speaker in remaining;
        var samples := speakerBuffers[speaker];
        VisitStep(speakerBuffers, remaining, order, speaker);
        if samples != [] {
          var filename := ArtifactPath(outputDir, guildId, speaker, startTime);
          ArtifactsSnoc(speakerBuffers, outputDir, guildId, startTime, order, files, written, speaker);
          files := files + [filename];
          written := written + [WavFile(filename, ArtifactSpec, samples)];
          order := order + [speaker];
        }
        remaining := remaining - {speaker};
      }
      assert NonEmptySpeakers(speakerBuffers) - {} == NonEmptySpeakers(speakerBuffers);
      ArtifactPathsDistinct(outputDir, guildId, startTime, order, files);
      ElementsEmpty(order);
    }
  }

  /**
   * `flush_audio_buffers` on values: the drained SSRC buffers, in drain
   * order, each non-empty one with a mapped SSRC appended to its user's
   * buffer; the others are dropped.
   */
  function Flushed(m: map<UserId, seq<i16>>, drained: map<Ssrc, seq<i16>>, ssrcMap: map<Ssrc, UserId>, order: seq<Ssrc>)
    : map<UserId, seq<i16>>
    requires forall i :: 0 <= i < |order| ==> order[i] in drained
  {
    if order == [] then m
    else
      var prev := Flushed(m, drained, ssrcMap, order[..|order| - 1]);
      var s := order[|order| - 1];
      if drained[s] != [] && s in ssrcMap then Appended(prev, ssrcMap[s], drained[s]) else prev
  }

  /** A user no drained SSRC is mapped to keeps the buffer it had. */
  lemma {:induction false} FlushedKeepsOthers(m: map<UserId, seq<i16>>, drained: map<Ssrc, seq<i16>>,
                                              ssrcMap: map<Ssrc, UserId>, order: seq<Ssrc>, u: UserId)
    requires forall i :: 0 <= i < |order| ==> order[i] in drained
    requires forall i :: 0 <= i < |order| ==> order[i] in ssrcMap ==> ssrcMap[order[i]] != u
    ensures var r := Flushed(m, drained, ssrcMap, order); (u in r <==> u in m) && BufferOf(r, u) == BufferOf(m, u)
  {
    if order != [] {
      FlushedKeepsOthers(m, drained, ssrcMap, order[..|order| - 1], u);
    }
  }

  /** A user exactly one drained SSRC is mapped to gets that SSRC's samples appended. */
  lemma {:induction false} FlushedSingle(m: map<UserId, seq<i16>>, drained: map<Ssrc, seq<i16>>,
                                         ssrcMap: map<Ssrc, UserId>, order: seq<Ssrc>, s: Ssrc)
    requires forall i :: 0 <= i < |order| ==> order[i] in drained
    requires Distinct(order) && s in Elements(order) && s in ssrcMap
    requires forall i :: 0 <= i < |order| ==> order[i] in ssrcMap && order[i] != s ==> ssrcMap[order[i]] != ssrcMap[s]
    ensures BufferOf(Flushed(m, drained, ssrcMap, order), ssrcMap[s]) == BufferOf(m, ssrcMap[s]) + drained[s]
  {
    var init := order[..|order| - 1];
    var last := order[|order| - 1];
    if last == s {
      assert forall i :: 0 <= i < |init| ==> init[i] != s;
      FlushedKeepsOthers(m, drained, ssrcMap, init, ssrcMap[s]);
      if drained[s] == [] {
        assert BufferOf(m, ssrcMap[s]) + drained[s] == BufferOf(m, ssrcMap[s]);
      }
    } else {
      var k :| 0 <= k < |order| && order[k] == s;
      assert k < |init| && init[k] == s;
      FlushedSingle(m, drained, ssrcMap, init, s);
    }
  }

  /** The samples a recording tick brings to one user: the non-empty audio of the SSRCs mapped to that user, in order. */
  function RecordedChunks(u: UserId, ssrcMap: map<Ssrc, UserId>, entries: seq<TickEntry>): seq<seq<i16>>
  {
    if entries == [] then []
    else
      var e := entries[|entries| - 1];
      RecordedChunks(u, ssrcMap, entries[..|entries| - 1])
      + (if e.decodedVoice.Some? && e.decodedVoice.value != [] && e.ssrc in ssrcMap && ssrcMap[e.ssrc] == u
         then [e.decodedVoice.value] else [])
  }

  /**
   * A voice tick, as `VoiceReceiveHandler::act` records it: every entry with
   * non-empty decoded audio on a mapped SSRC is appended under the mapped
   * user; entries without audio, with empty audio or on an unmapped SSRC
   * are skipped.
   */
  function RecordTick(m: map<UserId, seq<i16>>, ssrcMap: map<Ssrc, UserId>, entries: seq<TickEntry>): map<UserId, seq<i16>>
  {
    if entries == [] then m
    else
      var prev := RecordTick(m, ssrcMap, entries[..|entries| - 1]);
      var e := entries[|entries| - 1];
      if e.decodedVoice.Some? && e.decodedVoice.value != [] && e.ssrc in ssrcMap
      then Appended(prev, ssrcMap[e.ssrc], e.decodedVoice.value)
      else prev
  }

  /** Each user's buffer grows by exactly the audio of the SSRCs mapped to it, in tick order. */
  lemma {:induction false} RecordTickContents(m: map<UserId, seq<i16>>, ssrcMap: map<Ssrc, UserId>, entries: seq<TickEntry>, u: UserId)
    ensures BufferOf(RecordTick(m, ssrcMap, entries), u) == BufferOf(m, u) + Flatten(RecordedChunks(u, ssrcMap, entries))
  {
    if entries == [] {
      assert BufferOf(m, u) + [] == BufferOf(m, u);
    } else {
      var init := entries[..|entries| - 1];
      var e := entries[|entries| - 1];
      RecordTickContents(m, ssrcMap, init, u);
      var prev := RecordTick(m, ssrcMap, init);
      var chunks := RecordedChunks(u, ssrcMap, init);
      if e.decodedVoice.Some? && e.decodedVoice.value != [] && e.ssrc in ssrcMap && ssrcMap[e.ssrc] == u {
        var audio := e.decodedVoice.value;
        assert BufferOf(RecordTick(m, ssrcMap, entries), u) == BufferOf(prev, u) + audio;
        assert RecordedChunks(u, ssrcMap, entries) == chunks + [audio];
        FlattenSnoc(chunks, audio);
        assert BufferOf(m, u) + Flatten(chunks) + audio == BufferOf(m, u) + (Flatten(chunks) + audio);
      } else {
        assert BufferOf(RecordTick(m, ssrcMap, entries), u) == BufferOf(prev, u);
        assert RecordedChunks(u, ssrcMap, entries) == chunks;
      }
    }
  }

  class RecordingManager {
    const outputDir: string
    var activeSessions: map<GuildId, RecordingSession>

    /** The objects an operation on guild `g`'s recording may change. */
    function SessionFootprint(g: GuildId): set<object>
      reads this
    {
      if g in activeSessions then {activeSessions[g]} else {}
    }

    /** `RecordingManager::new`; directory creation is not part of this model. */
    constructor (outputDir: string)
      ensures this.outputDir == outputDir && activeSessions == map[]
    {
      this.outputDir := outputDir;
      activeSessions := map[];
    }

    /** `start_recording`: a fresh empty session, replacing any recording the guild already had. */
    method StartRecording(guildId: GuildId, channelId: ChannelId, now: DateTime) returns (session: RecordingSession)
      modifies this
      ensures fresh(session) && activeSessions == old(activeSessions)[guildId := session]
      ensures session.guildId == guildId && session.channelId == channelId
      ensures session.outputDir == outputDir && session.startTime == now && session.speakerBuffers == map[]
      ensures IsRecording(guildId)
    {
      session := new RecordingSession(guildId, channelId, outputDir, now);
      activeSessions := activeSessions[guildId := session];
    }

    /** `stop_recording`: remove the guild's session and return it, or `None`; it never fails. */
    method StopRecording(guildId: GuildId) returns (r: Result<Option<RecordingSession>, string>)
      modifies this
      ensures r == Ok(if guildId in old(activeSessions) then Some(old(activeSessions)[guildId]) else None)
      ensures activeSessions == old(activeSessions) - {guildId}
      ensures !IsRecording(guildId)
    {
      var session := if guildId in activeSessions then Some(activeSessions[guildId]) else None;
      activeSessions := activeSessions - {guildId};
      r := Ok(session);
    }

    /** `is_recording`. */
    predicate IsRecording(guildId: GuildId)
      reads this
    {
      guildId in activeSessions
    }

    /** `add_audio_to_session`: the session's `add_audio`, or nothing when the guild is not recording. */
    method AddAudioToSession(guildId: GuildId, speaker: UserId, samples: seq<i16>)
      modifies SessionFootprint(guildId)
      ensures guildId in activeSessions ==>
        activeSessions[guildId].speakerBuffers == Appended(old(activeSessions[guildId].speakerBuffers), speaker, samples)
      ensures guildId !in activeSessions ==> unchanged(old(SessionFootprint(guildId)))
    {
      if guildId in activeSessions {
        activeSessions[guildId].AddAudio(speaker, samples);
      }
    }

    /**
     * `flush_audio_buffers`: drain the handler's SSRC buffers, in the map's
     * iteration order (`order` names the SSRCs), into the guild's session;
     * the handler's buffer map is left empty and its SSRC map unchanged.
     */
    method FlushAudioBuffers(guildId: GuildId, handler: VoiceReceiveHandler) returns (ghost order: seq<Ssrc>)
      modifies handler`audioBuffers, SessionFootprint(guildId)
      ensures handler.audioBuffers == map[] && handler.ssrcToUser == old(handler.ssrcToUser)
      ensures Distinct(order) && Elements(order) == old(handler.audioBuffers).Keys
      ensures forall i :: 0 <= i < |order| ==> order[i] in old(handler.audioBuffers)
      ensures guildId in activeSessions ==>
        activeSessions[guildId].speakerBuffers
        == Flushed(old(activeSessions[guildId].speakerBuffers), old(handler.audioBuffers), handler.ssrcToUser, order)
      ensures guildId !in activeSessions ==> unchanged(old(SessionFootprint(guildId)))
    {
      var buffers := handler.audioBuffers;
      handler.audioBuffers := map[];
      ghost var drained := buffers;
      ghost var start := if guildId in activeSessions then activeSessions[guildId].speakerBuffers else map[];
      order := [];
      var remaining := buffers.Keys;
      while remaining != {}
        invariant remaining <= drained.Keys
        invariant Distinct(order) && Elements(order) == drained.Keys - remaining
        invariant forall i :: 0 <= i < |order| ==> order[i] in drained
        invariant handler.audioBuffers == map[] && handler.ssrcToUser == old(handler.ssrcToUser)
        invariant guildId in activeSessions ==>
          activeSessions[guildId].speakerBuffers == Flushed(start, drained, handler.ssrcToUser, order)
        invariant guildId !in activeSessions ==> unchanged(old(SessionFootprint(guildId)))
        decreases remaining
      {
        var ssrc :| ssrc in remaining;
        var buffer := buffers[ssrc];
        if buffer != [] {
          if ssrc in handler.ssrcToUser {
            AddAudioToSession(guildId, handler.ssrcToUser[ssrc], buffer);
          }
        }
        assert ssrc !in Elements(order);
        ElementsAppend(order, ssrc);
        assert (order + [ssrc])[..|order|] == order;
        order := order + [ssrc];
        remaining := remaining - {ssrc};
      }
    }
  }

  class VoiceReceiveHandler {
    const recordingManager: RecordingManager
    const guildId: GuildId
    var audioBuffers: map<Ssrc, seq<i16>>
    var ssrcToUser: map<Ssrc, UserId>

    /** `VoiceReceiveHandler::new`: both maps empty. */
    constructor (recordingManager: RecordingManager, guildId: GuildId)
      ensures this.recordingManager == recordingManager && this.guildId == guildId
      ensures audioBuffers == map[] && ssrcToUser == map[]
    {
      this.recordingManager := recordingManager;
      this.guildId := guildId;
      audioBuffers := map[];
      ssrcToUser := map[];
    }

    /**
     * `act`: a speaking-state update with a user id remaps the SSRC (last
     * write wins; `Id::new` panics on a zero id); a voice tick records the
     * mapped, non-empty audio; a disconnect and anything else change nothing.
     */
    method Act(event: VoiceEvent) returns (panicked: bool)
      modifies this`ssrcToUser, recordingManager.SessionFootprint(guildId)
      ensures audioBuffers == old(audioBuffers)
      ensures recordingManager.activeSessions == old(recordingManager.activeSessions)
      ensures !event.VoiceTick? ==> unchanged(old(recordingManager.SessionFootprint(guildId)))
      ensures event.SpeakingStateUpdate? ==>
        && panicked == (event.userId == Some(0))
        && ssrcToUser == (if event.userId.Some? && event.userId.value != 0
                          then old(ssrcToUser)[event.ssrc := event.userId.value] else old(ssrcToUser))
      ensures !event.SpeakingStateUpdate? ==> !panicked && ssrcToUser == old(ssrcToUser)
      ensures event.VoiceTick? && guildId in recordingManager.activeSessions ==>
        recordingManager.activeSessions[guildId].speakerBuffers
        == RecordTick(old(recordingManager.activeSessions[guildId].speakerBuffers), ssrcToUser, event.speaking)
    {
      panicked := false;
      match event {
        case SpeakingStateUpdate(ssrc, userId) =>
          if userId.Some? {
            if userId.value == 0 {
              panicked := true;
            } else {
              ssrcToUser := ssrcToUser[ssrc := userId.value];
            }
          }
        case VoiceTick(entries) =>
          RecordEntries(entries);
        case ClientDisconnect(_) =>
        case OtherEvent =>
      }
    }

    /** The voice-tick arm of `act`. */
    method RecordEntries(entries: seq<TickEntry>)
      modifies recordingManager.SessionFootprint(guildId)
      ensures recordingManager.activeSessions == old(recordingManager.activeSessions)
      ensures guildId in recordingManager.activeSessions ==>
        recordingManager.activeSessions[guildId].speakerBuffers
        == RecordTick(old(recordingManager.activeSessions[guildId].speakerBuffers), ssrcToUser, entries)
      ensures guildId !in recordingManager.activeSessions ==> unchanged(old(recordingManager.SessionFootprint(guildId)))
    {
      var i := 0;
      while i < |entries|
        invariant 0 <= i <= |entries|
        invariant recordingManager.activeSessions == old(recordingManager.activeSessions)
        invariant guildId in recordingManager.activeSessions ==>
          recordingManager.activeSessions[guildId].speakerBuffers
          == RecordTick(old(recordingManager.activeSessions[guildId].speakerBuffers), ssrcToUser, entries[..i])
        invariant guildId !in recordingManager.activeSessions ==> unchanged(old(recordingManager.SessionFootprint(guildId)))
      {
        var e := entries[i];
        if e.decodedVoice.Some? {
          var samples := e.decodedVoice.value;
          if samples != [] && e.ssrc in ssrcToUser {
            recordingManager.AddAudioToSession(guildId, ssrcToUser[e.ssrc], samples);
          }
        }
        assert entries[..i + 1][..i] == entries[..i];
        i := i + 1;
      }
      assert entries[..|entries|] == entries;
    }
  }
}

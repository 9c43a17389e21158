/**
 * Live-translation buffering: per-SSRC sample buffers, the SSRC-to-user
 * map, the segmentation sweep that hands finished utterances to the
 * pipeline, the guild-to-session registry and the voice event handler.
 *
 * `Local::now()` is an explicit `now` parameter (milliseconds); the
 * `RwLock`s and `Mutex`es are left out, so every operation is atomic.
 */
module VoiceTranslator {
  import opened Types

  /** Silence before a buffer may be flushed, in milliseconds. */
  const SilenceMs: U64 := 1500
  /** Half a second at 48 kHz. */
  const MinSamples: nat := 24000

  datatype TranslationPair = TranslationPair(sourceLang: string, targetLang: string)

  /** `silence_duration_ms as i64`: a `u64` reinterpreted as two's-complement `i64`. */
  function AsI64(x: U64): int
  {
    if x < 0x8000_0000_0000_0000 then x else x - U64Limit
  }

  /** A snapshot of the fields of a `TranslationBuffer`. */
  datatype BufferState = BufferState(userId: UserId, samples: seq<i16>, lastActivity: Millis, isSpeaking: bool)
  {
    /** `should_flush`: non-empty and silent for strictly longer than the threshold. */
    predicate ShouldFlush(silenceMs: U64, now: Millis)
    {
      if samples == [] then false else now - lastActivity > AsI64(silenceMs)
    }

    /** `has_minimum_duration`. */
    predicate HasMinimumDuration(minSamples: nat)
    {
      |samples| >= minSamples
    }

    /** The test `get_ready_buffers` applies to each buffer. */
    predicate Ready(now: Millis)
    {
      ShouldFlush(SilenceMs, now) && HasMinimumDuration(MinSamples)
    }

    /** The buffer after `clear`. */
    function Cleared(): BufferState
    {
      this.(samples := [], isSpeaking := false)
    }
  }

  /** `TranslationBuffer::new` at time `now`. */
  function FreshBuffer(userId: UserId, now: Millis): BufferState
  {
    BufferState(userId, [], now, false)
  }

  /** Readiness needs strictly more than 1500 ms of silence and at least 24000 samples. */
  lemma ReadyMeans(b: BufferState, now: Millis)
    ensures b.Ready(now) <==> now - b.lastActivity > 1500 && |b.samples| >= 24000
  {
  }

  /** An empty buffer never flushes; otherwise flushing is a strict comparison with the threshold. */
  lemma ShouldFlushMeans(b: BufferState, silenceMs: U64, now: Millis)
    requires silenceMs < 0x8000_0000_0000_0000
    ensures b.samples == [] ==> !b.ShouldFlush(silenceMs, now)
    ensures b.samples != [] ==> (b.ShouldFlush(silenceMs, now) <==> now - b.lastActivity > silenceMs)
  {
  }

  /** A buffer below the minimum is never ready, however long it has been silent. */
  lemma ShortBufferNeverReady(b: BufferState, now: Millis)
    requires |b.samples| < MinSamples
    ensures !b.Ready(now)
  {
  }

  class TranslationBuffer {
    var userId: UserId
    var samples: seq<i16>
    var lastActivity: Millis
    var isSpeaking: bool

    /** `TranslationBuffer::new`. */
    constructor (userId: UserId, now: Millis)
      ensures State() == FreshBuffer(userId, now)
    {
      this.userId := userId;
      samples := [];
      lastActivity := now;
      isSpeaking := false;
    }

    function State(): BufferState
      reads this
    {
      BufferState(userId, samples, lastActivity, isSpeaking)
    }

    /** `add_samples`: append in order, refresh the activity time, mark speaking. */
    method AddSamples(newSamples: seq<i16>, now: Millis)
      modifies this
      ensures samples == old(samples) + newSamples
      ensures lastActivity == now && isSpeaking
      ensures userId == old(userId)
    {
      samples := samples + newSamples;
      lastActivity := now;
      isSpeaking := true;
    }

    /** `mark_silence`: only the speaking flag changes. */
    method MarkSilence()
      modifies this
      ensures State() == old(State()).(isSpeaking := false)
    {
      isSpeaking := false;
    }

    /** `clear`: empty the samples and drop the speaking flag; owner and activity time stay. */
    method Clear()
      modifies this
      ensures State() == old(State()).Cleared()
      ensures samples == [] && !isSpeaking
      ensures userId == old(userId) && lastActivity == old(lastActivity)
    {
      samples := [];
      isSpeaking := false;
    }
  }

  /** What a session holds: the buffer of each SSRC and the SSRC-to-user map. */
  datatype SessionView = SessionView(buffers: map<Ssrc, BufferState>, ssrcToUser: map<Ssrc, UserId>)

  /**
   * `TranslationSession::add_audio` on values: the SSRC is (re)mapped to
   * `user` (last write wins) and the samples go to that SSRC's buffer,
   * created for `user` on first use; an existing buffer keeps its owner.
   */
  function WithAudio(v: SessionView, ssrc: Ssrc, user: UserId, samples: seq<i16>, now: Millis): (r: SessionView)
    ensures r.ssrcToUser == v.ssrcToUser[ssrc := user]
    ensures r.buffers.Keys == v.buffers.Keys + {ssrc}
    ensures r.buffers[ssrc].samples == (if ssrc in v.buffers then v.buffers[ssrc].samples else []) + samples
    ensures r.buffers[ssrc].userId == (if ssrc in v.buffers then v.buffers[ssrc].userId else user)
    ensures r.buffers[ssrc].lastActivity == now && r.buffers[ssrc].isSpeaking
    ensures forall s :: s in v.buffers && s != ssrc ==> r.buffers[s] == v.buffers[s]
  {
    var b := if ssrc in v.buffers then v.buffers[ssrc] else FreshBuffer(user, now);
    SessionView(v.buffers[ssrc := b.(samples := b.samples + samples, lastActivity := now, isSpeaking := true)],
                v.ssrcToUser[ssrc := user])
  }

  /** The buffers after `WithAudio`, as the two steps of `add_audio` build them. */
  lemma WithAudioBuffers(v: SessionView, ssrc: Ssrc, user: UserId, samples: seq<i16>, now: Millis)
    ensures var m := if ssrc in v.buffers then v.buffers else v.buffers[ssrc := FreshBuffer(user, now)];
      WithAudio(v, ssrc, user, samples, now).buffers
      == m[ssrc := m[ssrc].(samples := m[ssrc].samples + samples, lastActivity := now, isSpeaking := true)]
  {
  }

  /** The SSRCs whose buffers the sweep hands out: ready and mapped to a user. */
  function ReadySet(v: SessionView, now: Millis): set<Ssrc>
  {
    set s | s in v.buffers && v.buffers[s].Ready(now) && s in v.ssrcToUser
  }

  /** The buffers after the sweep: every handed-out buffer cleared, every other one untouched. */
  function AfterSweep(v: SessionView, now: Millis): (r: map<Ssrc, BufferState>)
    ensures r.Keys == v.buffers.Keys
  {
    map s | s in v.buffers :: if s in ReadySet(v, now) then v.buffers[s].Cleared() else v.buffers[s]
  }

  /** The buffers part-way through the sweep, once the SSRCs in `done` have been visited. */
  function PartlySwept(v: SessionView, now: Millis, done: set<Ssrc>): map<Ssrc, BufferState>
  {
    map s | s in v.buffers :: if s in done && s in ReadySet(v, now) then v.buffers[s].Cleared() else v.buffers[s]
  }

  /** Visiting one more SSRC updates that SSRC's entry alone. */
  lemma PartlySweptStep(v: SessionView, now: Millis, done: set<Ssrc>, s: Ssrc)
    requires s in v.buffers
    ensures PartlySwept(v, now, done + {s})
         == PartlySwept(v, now, done)[s := if s in ReadySet(v, now) then v.buffers[s].Cleared() else v.buffers[s]]
  {
  }

  /**
   * What the sweep has handed out once the SSRCs in `done` have been
   * visited: each ready SSRC among them exactly once, with its user and
   * its samples.
   */
  ghost predicate SweepProgress(v: SessionView, now: Millis, done: set<Ssrc>, order: seq<Ssrc>, ready: seq<(UserId, seq<i16>)>)
  {
    && Distinct(order) && Elements(order) == ReadySet(v, now) * done
    && |ready| == |order|
    && forall i :: 0 <= i < |order| ==>
         order[i] in v.ssrcToUser && order[i] in v.buffers
         && ready[i] == (v.ssrcToUser[order[i]], v.buffers[order[i]].samples)
  }

  /** Visiting an SSRC hands it out when it is ready and leaves the handed-out list alone otherwise. */
  lemma SweepProgressStep(v: SessionView, now: Millis, done: set<Ssrc>, order: seq<Ssrc>, ready: seq<(UserId, seq<i16>)>, s: Ssrc)
    requires SweepProgress(v, now, done, order, ready) && s in v.buffers && s !in done
    ensures s in ReadySet(v, now) ==>
      SweepProgress(v, now, done + {s}, order + [s], ready + [(v.ssrcToUser[s], v.buffers[s].samples)])
    ensures s !in ReadySet(v, now) ==> SweepProgress(v, now, done + {s}, order, ready)
  {
    if s in ReadySet(v, now) {
      assert s !in Elements(order);
      ElementsAppend(order, s);
    }
  }

  /** Once every buffer has been visited, the sweep has handed out the ready set and left `AfterSweep`. */
  lemma SweepComplete(v: SessionView, now: Millis, done: set<Ssrc>, order: seq<Ssrc>, ready: seq<(UserId, seq<i16>)>)
    requires SweepProgress(v, now, done, order, ready) && done == v.buffers.Keys
    ensures Elements(order) == ReadySet(v, now)
    ensures PartlySwept(v, now, done) == AfterSweep(v, now)
  {
    assert ReadySet(v, now) * done == ReadySet(v, now);
  }

  /** The example from the design: 16000 samples after 1600 ms of silence are not handed out and stay as they are. */
  lemma ShortUtteranceStays(v: SessionView, s: Ssrc, now: Millis)
    requires s in v.buffers && |v.buffers[s].samples| == 16000
    requires now - v.buffers[s].lastActivity == 1600
    ensures s !in ReadySet(v, now)
    ensures AfterSweep(v, now)[s] == v.buffers[s]
  {
  }

  /** The other example: 30000 samples after 1600 ms, on a mapped SSRC, are handed out and the buffer is emptied. */
  lemma LongUtteranceFlushed(v: SessionView, s: Ssrc, now: Millis)
    requires s in v.buffers && |v.buffers[s].samples| == 30000 && s in v.ssrcToUser
    requires now - v.buffers[s].lastActivity == 1600
    ensures s in ReadySet(v, now)
    ensures AfterSweep(v, now)[s].samples == []
  {
  }

  /** No two SSRCs share one buffer object. */
  ghost predicate BuffersDistinct(m: map<Ssrc, TranslationBuffer>)
  {
    forall a, b :: a in m && b in m && a != b ==> m[a] != m[b]
  }

  class TranslationSession {
    const guildId: GuildId
    const channelId: ChannelId
    const translationPair: TranslationPair
    const startTime: Millis
    var speakerBuffers: map<Ssrc, TranslationBuffer>
    var ssrcToUser: map<Ssrc, UserId>

    ghost predicate Valid()
      reads this
    {
      BuffersDistinct(speakerBuffers)
    }

    function Buffers(): map<Ssrc, BufferState>
      reads this`speakerBuffers, speakerBuffers.Values
    {
      map s | s in speakerBuffers :: speakerBuffers[s].State()
    }

    function View(): SessionView
      reads this, speakerBuffers.Values
    {
      SessionView(Buffers(), ssrcToUser)
    }

    /** `TranslationSession::new`: no buffers and no SSRC mapping yet. */
    constructor (guildId: GuildId, channelId: ChannelId, translationPair: TranslationPair, now: Millis)
      ensures Valid()
      ensures this.guildId == guildId && this.channelId == channelId
      ensures this.translationPair == translationPair && startTime == now
      ensures speakerBuffers == map[] && ssrcToUser == map[]
    {
      this.guildId := guildId;
      this.channelId := channelId;
      this.translationPair := translationPair;
      startTime := now;
      speakerBuffers := map[];
      ssrcToUser := map[];
    }

    /** `add_audio`: remap the SSRC, then append to its buffer, creating it on first use. */
    method AddAudio(ssrc: Ssrc, userId: UserId, samples: seq<i16>, now: Millis)
      requires Valid()
      modifies this, speakerBuffers.Values
      ensures Valid()
      ensures View() == WithAudio(old(View()), ssrc, userId, samples, now)
      ensures forall b :: b in speakerBuffers.Values ==> b in old(speakerBuffers.Values) || fresh(b)
    {
      ghost var before := View();
      ssrcToUser := ssrcToUser[ssrc := userId];
      BufferFor(ssrc, userId, now);
      AppendTo(ssrc, samples, now);
      WithAudioBuffers(before, ssrc, userId, samples, now);
    }

    /** `entry(ssrc).or_insert_with(..)`: the SSRC's buffer, created for `userId` when it has none. */
    method BufferFor(ssrc: Ssrc, userId: UserId, now: Millis)
      requires Valid()
      modifies this
      ensures Valid() && ssrcToUser == old(ssrcToUser) && ssrc in speakerBuffers
      ensures Buffers() == if ssrc in old(Buffers()) then old(Buffers()) else old(Buffers())[ssrc := FreshBuffer(userId, now)]
      ensures forall b :: b in speakerBuffers.Values ==> b in old(speakerBuffers.Values) || fresh(b)
    {
      if ssrc !in speakerBuffers {
        var b := new TranslationBuffer(userId, now);
        speakerBuffers := speakerBuffers[ssrc := b];
      }
    }

    /** `add_samples` on the SSRC's buffer; every other buffer is left alone. */
    method AppendTo(ssrc: Ssrc, samples: seq<i16>, now: Millis)
      requires Valid() && ssrc in speakerBuffers
      modifies speakerBuffers[ssrc]
      ensures Buffers() == old(Buffers())[ssrc := old(Buffers())[ssrc].(samples := old(Buffers())[ssrc].samples + samples,
                                                                      lastActivity := now, isSpeaking := true)]
    {
      var buffer := speakerBuffers[ssrc];
      buffer.AddSamples(samples, now);
      forall t | t in speakerBuffers && t != ssrc
        ensures speakerBuffers[t].State() == old(speakerBuffers[t].State())
      {
        assert speakerBuffers[t] != buffer;
      }
    }

    /** `mark_silence`: clear the speaking flag of the SSRC's buffer, if there is one. */
    method MarkSilence(ssrc: Ssrc)
      requires Valid()
      modifies speakerBuffers.Values
      ensures Buffers() == if ssrc in old(Buffers()) then old(Buffers())[ssrc := old(Buffers())[ssrc].(isSpeaking := false)] else old(Buffers())
    {
      if ssrc in speakerBuffers {
        ghost var before := Buffers();
        speakerBuffers[ssrc].MarkSilence();
        assert forall s :: s in speakerBuffers && s != ssrc ==> speakerBuffers[s].State() == before[s];
      }
    }

    /**
     * `get_ready_buffers`: hand out (mapped user, samples) for every ready,
     * mapped buffer, in the map's iteration order (`order` names the SSRCs),
     * and clear exactly those buffers.
     */
    method GetReadyBuffers(now: Millis) returns (ready: seq<(UserId, seq<i16>)>, ghost order: seq<Ssrc>)
      requires Valid()
      modifies speakerBuffers.Values
      ensures Distinct(order) && Elements(order) == ReadySet(old(View()), now)
      ensures |ready| == |order|
      ensures forall i :: 0 <= i < |order| ==>
        && order[i] in ssrcToUser && order[i] in old(Buffers())
        && ready[i] == (ssrcToUser[order[i]], old(Buffers())[order[i]].samples)
      ensures Buffers() == AfterSweep(old(View()), now)
    {
      ghost var v := View();
      ghost var done: set<Ssrc> := {};
      ready, order := [], [];
      var remaining := speakerBuffers.Keys;
      while remaining != {}
        invariant remaining + done == speakerBuffers.Keys && remaining !! done
        invariant SweepProgress(v, now, done, order, ready)
        invariant Buffers() == PartlySwept(v, now, done)
        decreases remaining
      {
        var s :| s in remaining;
        var item := TakeIfReady(s, now);
        SweepProgressStep(v, now, done, order, ready, s);
        if item.Some? {
          ready := ready + [item.value];
          order := order + [s];
        }
        PartlySweptStep(v, now, done, s);
        remaining := remaining - {s};
        done := done + {s};
      }
      SweepComplete(v, now, done, order, ready);
    }

    /** One step of the sweep: the SSRC's buffer is handed out and cleared when it is ready and its SSRC is mapped. */
    method TakeIfReady(s: Ssrc, now: Millis) returns (item: Option<(UserId, seq<i16>)>)
      requires Valid() && s in speakerBuffers
      modifies speakerBuffers[s]
      ensures var st := old(Buffers())[s];
        && (item.Some? <==> st.Ready(now) && s in ssrcToUser)
        && (item.Some? ==> item.value == (ssrcToUser[s], st.samples))
        && Buffers() == old(Buffers())[s := if item.Some? then st.Cleared() else st]
    {
      item := None;
      var buffer := speakerBuffers[s];
      var st := buffer.State();
      if st.ShouldFlush(SilenceMs, now) && st.HasMinimumDuration(MinSamples) {
        if s in ssrcToUser {
          item := Some((ssrcToUser[s], buffer.samples));
          buffer.Clear();
        }
      }
      forall t | t in speakerBuffers && t != s
        ensures speakerBuffers[t].State() == old(speakerBuffers[t].State())
      {
        assert speakerBuffers[t] != buffer;
      }
    }
  }

  class TranslationManager {
    var activeSessions: map<GuildId, TranslationSession>

    ghost predicate Valid()
      reads this, activeSessions.Values
    {
      forall g :: g in activeSessions ==> activeSessions[g].Valid()
    }

    /** The objects an operation on guild `g`'s session may change. */
    ghost function SessionFootprint(g: GuildId): set<object>
      reads this, if g in activeSessions then {activeSessions[g]} else {}
    {
      if g in activeSessions then
        {activeSessions[g] as object} + set b | b in activeSessions[g].speakerBuffers.Values :: b as object
      else {}
    }

    constructor ()
      ensures Valid() && activeSessions == map[]
    {
      activeSessions := map[];
    }

    /** `start_translation`: a fresh empty session, replacing any session the guild already had. */
    method StartTranslation(guildId: GuildId, channelId: ChannelId, pair: TranslationPair, now: Millis)
      returns (session: TranslationSession)
      requires Valid()
      modifies this
      ensures Valid() && fresh(session)
      ensures activeSessions == old(activeSessions)[guildId := session]
      ensures session.guildId == guildId && session.channelId == channelId && session.translationPair == pair
      ensures session.View() == SessionView(map[], map[])
      ensures IsTranslating(guildId)
    {
      session := new TranslationSession(guildId, channelId, pair, now);
      activeSessions := activeSessions[guildId := session];
    }

    /** `stop_translation`: remove and return the guild's session, or `None` when it has none. */
    method StopTranslation(guildId: GuildId) returns (session: Option<TranslationSession>)
      requires Valid()
      modifies this
      ensures Valid()
      ensures session == if guildId in old(activeSessions) then Some(old(activeSessions)[guildId]) else None
      ensures activeSessions == old(activeSessions) - {guildId}
      ensures !IsTranslating(guildId)
    {
      if guildId in activeSessions {
        session := Some(activeSessions[guildId]);
      } else {
        session := None;
      }
      activeSessions := activeSessions - {guildId};
    }

    /** `is_translating`. */
    predicate IsTranslating(guildId: GuildId)
      reads this
    {
      guildId in activeSessions
    }

    /** `add_audio_to_session`: the session's `add_audio`, or nothing when the guild has no session. */
    method AddAudioToSession(guildId: GuildId, ssrc: Ssrc, userId: UserId, samples: seq<i16>, now: Millis)
      requires Valid()
      modifies SessionFootprint(guildId)
      ensures Valid() && activeSessions == old(activeSessions)
      ensures guildId in activeSessions ==>
        activeSessions[guildId].View() == WithAudio(old(activeSessions[guildId].View()), ssrc, userId, samples, now)
      ensures guildId !in activeSessions ==> unchanged(SessionFootprint(guildId))
      ensures forall o :: o in SessionFootprint(guildId) ==> o in old(SessionFootprint(guildId)) || fresh(o)
    {
      if guildId in activeSessions {
        activeSessions[guildId].AddAudio(ssrc, userId, samples, now);
      }
    }

    /** `get_ready_translations`: the session's sweep, or nothing when the guild has no session. */
    method GetReadyTranslations(guildId: GuildId, now: Millis)
      returns (ready: seq<(UserId, seq<i16>)>, ghost order: seq<Ssrc>)
      requires Valid()
      modifies SessionFootprint(guildId)
      ensures Valid() && activeSessions == old(activeSessions)
      ensures guildId !in activeSessions ==> ready == []
      ensures guildId in activeSessions ==>
        var s := activeSessions[guildId];
        && Distinct(order) && Elements(order) == ReadySet(old(s.View()), now)
        && |ready| == |order|
        && (forall i :: 0 <= i < |order| ==>
              && order[i] in s.ssrcToUser && order[i] in old(s.Buffers())
              && ready[i] == (s.ssrcToUser[order[i]], old(s.Buffers())[order[i]].samples))
        && s.Buffers() == AfterSweep(old(s.View()), now)
    {
      if guildId in activeSessions {
        ready, order := activeSessions[guildId].GetReadyBuffers(now);
      } else {
        ready, order := [], [];
      }
    }
  }

  /**
   * One entry of a voice tick, as `VoiceTranslateHandler::act` treats it:
   * non-empty audio on an SSRC the handler has mapped is added to the
   * session under that user; audio on an unmapped SSRC and empty audio are
   * dropped. (An entry without audio panics; see `TickStop`.)
   */
  function TickStep(v: SessionView, ssrcMap: map<Ssrc, UserId>, e: TickEntry, now: Millis): SessionView
  {
    match e.decodedVoice
    case Some(audio) =>
      if audio != [] && e.ssrc in ssrcMap then WithAudio(v, e.ssrc, ssrcMap[e.ssrc], audio, now) else v
    case None => v
  }

  /** The session after the given tick entries, in order. */
  function ApplyTick(v: SessionView, ssrcMap: map<Ssrc, UserId>, entries: seq<TickEntry>, now: Millis): SessionView
  {
    if entries == [] then v
    else TickStep(ApplyTick(v, ssrcMap, entries[..|entries| - 1], now), ssrcMap, entries[|entries| - 1], now)
  }

  /**
   * How many entries of a tick run before the handler panics: an entry
   * without decoded audio calls `Id::new(0)`, which panics in twilight.
   */
  function TickStop(entries: seq<TickEntry>): (k: nat)
    ensures k <= |entries|
    ensures forall i :: 0 <= i < k ==> entries[i].decodedVoice.Some?
    ensures k < |entries| ==> entries[k].decodedVoice.None?
  {
    if entries == [] then 0
    else if entries[0].decodedVoice.None? then 0
    else 1 + TickStop(entries[1..])
  }

  /** The samples a tick brings to one SSRC: its non-empty audio chunks, in order. */
  function ChunksFor(ssrc: Ssrc, entries: seq<TickEntry>): seq<seq<i16>>
  {
    if entries == [] then []
    else
      var e := entries[|entries| - 1];
      ChunksFor(ssrc, entries[..|entries| - 1])
      + (if e.ssrc == ssrc && e.decodedVoice.Some? && e.decodedVoice.value != [] then [e.decodedVoice.value] else [])
  }

  /** The samples an SSRC's buffer holds, or none when it has no buffer. */
  function SamplesOf(v: SessionView, s: Ssrc): seq<i16>
  {
    if s in v.buffers then v.buffers[s].samples else []
  }

  /** One tick entry touches only the buffer of its own SSRC, and only when that SSRC is mapped. */
  lemma TickStepAt(v: SessionView, ssrcMap: map<Ssrc, UserId>, e: TickEntry, now: Millis, s: Ssrc)
    ensures var r := TickStep(v, ssrcMap, e, now);
      var hit := e.ssrc == s && e.decodedVoice.Some? && e.decodedVoice.value != [] && s in ssrcMap;
      && (hit ==> s in r.buffers && r.buffers[s].samples == SamplesOf(v, s) + e.decodedVoice.value)
      && (!hit ==> (s in r.buffers <==> s in v.buffers) && (s in v.buffers ==> r.buffers[s] == v.buffers[s]))
  {
  }

  /**
   * A tick appends to the buffer of every SSRC the handler has mapped
   * exactly that SSRC's non-empty audio, in tick order.
   */
  lemma {:induction false} TickAppendsInOrder(v: SessionView, ssrcMap: map<Ssrc, UserId>, entries: seq<TickEntry>, now: Millis, s: Ssrc)
    requires s in ssrcMap
    ensures SamplesOf(ApplyTick(v, ssrcMap, entries, now), s) == SamplesOf(v, s) + Flatten(ChunksFor(s, entries))
  {
    if entries == [] {
      assert SamplesOf(v, s) + [] == SamplesOf(v, s);
    } else {
      var init := entries[..|entries| - 1];
      var e := entries[|entries| - 1];
      TickAppendsInOrder(v, ssrcMap, init, now, s);
      var mid := ApplyTick(v, ssrcMap, init, now);
      assert ApplyTick(v, ssrcMap, entries, now) == TickStep(mid, ssrcMap, e, now);
      TickStepAt(mid, ssrcMap, e, now, s);
      var chunks := ChunksFor(s, init);
      if e.ssrc == s && e.decodedVoice.Some? && e.decodedVoice.value != [] {
        assert ChunksFor(s, entries) == chunks + [e.decodedVoice.value];
        FlattenSnoc(chunks, e.decodedVoice.value);
        assert SamplesOf(v, s) + Flatten(chunks) + e.decodedVoice.value
            == SamplesOf(v, s) + (Flatten(chunks) + e.decodedVoice.value);
      } else {
        assert ChunksFor(s, entries) == chunks;
      }
    }
  }

  /** Audio on an SSRC the handler has not mapped is dropped: that SSRC's buffer is left as it was. */
  lemma {:induction false} TickIgnoresUnmapped(v: SessionView, ssrcMap: map<Ssrc, UserId>, entries: seq<TickEntry>, now: Millis, s: Ssrc)
    requires s !in ssrcMap
    ensures var r := ApplyTick(v, ssrcMap, entries, now);
      (s in r.buffers <==> s in v.buffers) && (s in v.buffers ==> r.buffers[s] == v.buffers[s])
  {
    if entries != [] {
      TickIgnoresUnmapped(v, ssrcMap, entries[..|entries| - 1], now, s);
      TickStepAt(ApplyTick(v, ssrcMap, entries[..|entries| - 1], now), ssrcMap, entries[|entries| - 1], now, s);
    }
  }

  class VoiceTranslateHandler {
    const translationManager: TranslationManager
    const guildId: GuildId
    var ssrcToUser: map<Ssrc, UserId>

    /** `VoiceTranslateHandler::new`: an empty SSRC map. */
    constructor (translationManager: TranslationManager, guildId: GuildId)
      ensures this.translationManager == translationManager && this.guildId == guildId
      ensures ssrcToUser == map[]
    {
      this.translationManager := translationManager;
      this.guildId := guildId;
      ssrcToUser := map[];
    }

    /**
     * `act`: a speaking-state update with a user id remaps the SSRC in the
     * handler's own map (last write wins; `Id::new` panics on a zero id);
     * a voice tick is handled by `HandleTick`; anything else changes nothing.
     */
    method Act(event: VoiceEvent, now: Millis) returns (panicked: bool)
      requires translationManager.Valid()
      modifies this, translationManager.SessionFootprint(guildId)
      ensures translationManager.Valid()
      ensures translationManager.activeSessions == old(translationManager.activeSessions)
      ensures !event.VoiceTick? ==> unchanged(old(translationManager.SessionFootprint(guildId)))
      ensures event.SpeakingStateUpdate? ==>
        && panicked == (event.userId == Some(0))
        && ssrcToUser == (if event.userId.Some? && event.userId.value != 0
                          then old(ssrcToUser)[event.ssrc := event.userId.value] else old(ssrcToUser))
      ensures event.VoiceTick? ==>
        && panicked == (TickStop(event.speaking) < |event.speaking|)
        && ssrcToUser == old(ssrcToUser)
        && (guildId in translationManager.activeSessions ==>
              translationManager.activeSessions[guildId].View()
              == ApplyTick(old(translationManager.activeSessions[guildId].View()), ssrcToUser,
                           event.speaking[..TickStop(event.speaking)], now))
      ensures (event.ClientDisconnect? || event.OtherEvent?) ==> !panicked && ssrcToUser == old(ssrcToUser)
    {
      panicked := false;
      match event {
        case SpeakingStateUpdate(ssrc, userId) =>
          if userId.Some? {
            if userId.value == 0 {
              panicked := true;
            } else {
              ssrcToUser := ssrcToUser[ssrc := userId.value];
            }
          }
        case VoiceTick(entries) =>
          panicked := HandleTick(entries, now);
        case ClientDisconnect(_) =>
        case OtherEvent =>
      }
    }

    /**
     * The voice-tick arm of `act`: every entry is fed, in order, to the
     * guild's session (non-empty audio on a mapped SSRC only), until an
     * entry without decoded audio, where `Id::new(0)` panics.
     */
    method HandleTick(entries: seq<TickEntry>, now: Millis) returns (panicked: bool)
      requires translationManager.Valid()
      modifies translationManager.SessionFootprint(guildId)
      ensures translationManager.Valid()
      ensures translationManager.activeSessions == old(translationManager.activeSessions)
      ensures panicked == (TickStop(entries) < |entries|)
      ensures guildId in translationManager.activeSessions ==>
        translationManager.activeSessions[guildId].View()
        == ApplyTick(old(translationManager.activeSessions[guildId].View()), ssrcToUser, entries[..TickStop(entries)], now)
      ensures guildId !in translationManager.activeSessions ==> unchanged(old(translationManager.SessionFootprint(guildId)))
    {
      var stop := TickStop(entries);
      var i := 0;
      while i < stop
        invariant 0 <= i <= stop
        invariant translationManager.Valid()
        invariant translationManager.activeSessions == old(translationManager.activeSessions)
        invariant guildId in translationManager.activeSessions ==>
          translationManager.activeSessions[guildId].View()
          == ApplyTick(old(translationManager.activeSessions[guildId].View()), ssrcToUser, entries[..i], now)
        invariant guildId !in translationManager.activeSessions ==> unchanged(old(translationManager.SessionFootprint(guildId)))
        invariant forall o :: o in translationManager.SessionFootprint(guildId) ==>
          o in old(translationManager.SessionFootprint(guildId)) || fresh(o)
      {
        FeedEntry(entries[i], now);
        assert entries[..i + 1][..i] == entries[..i];
        i := i + 1;
      }
      panicked := stop < |entries|;
    }

    /** One decoded entry of a tick: its audio goes to the session when it is non-empty and its SSRC is mapped. */
    method FeedEntry(e: TickEntry, now: Millis)
      requires translationManager.Valid() && e.decodedVoice.Some?
      modifies translationManager.SessionFootprint(guildId)
      ensures translationManager.Valid()
      ensures translationManager.activeSessions == old(translationManager.activeSessions)
      ensures guildId in translationManager.activeSessions ==>
        translationManager.activeSessions[guildId].View()
        == TickStep(old(translationManager.activeSessions[guildId].View()), ssrcToUser, e, now)
      ensures guildId !in translationManager.activeSessions ==> unchanged(old(translationManager.SessionFootprint(guildId)))
      ensures forall o :: o in translationManager.SessionFootprint(guildId) ==>
        o in old(translationManager.SessionFootprint(guildId)) || fresh(o)
    {
      var audio := e.decodedVoice.value;
      if audio != [] && e.ssrc in ssrcToUser {
        translationManager.AddAudioToSession(guildId, e.ssrc, ssrcToUser[e.ssrc], audio, now);
      }
    }
  }
}

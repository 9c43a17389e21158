/**
 * The decisions the bot's event handlers make around the managers: reading
 * the speaker back out of a recording artifact's file name, labelling a
 * meeting transcript line by line, validating `/translate_set`, the 🔴
 * reaction toggle of a recording control message, the refusals of
 * `/translate_start`, and the gates an utterance passes on its way to a
 * posted translation.
 *
 * Discord and songbird calls are parameters: the voice channel a user is
 * in, whether joining it succeeded, the guild members the HTTP lookup
 * would find, what Whisper and DeepL answer.
 */
module Bot {
  import opened Types
  import opened Text
  import opened Decimal
  import opened VoiceRecorder
  import opened UserSettings
  import VoiceTranslator
  import Transcriber
  import Translator

  // ---------------------------------------------------------------------
  // Speaker ids in artifact file names
  // ---------------------------------------------------------------------

  /**
   * The final normal component of a path split on `/`: empty components
   * (repeated or trailing slashes) and `.` are skipped; a final `..` has no
   * file name.
   */
  function LastComponent(parts: seq<string>): (r: Option<string>)
    ensures r.Some? ==> r.value in parts && r.value != "" && r.value != "." && r.value != ".."
  {
    if parts == [] then None
    else
      var last := parts[|parts| - 1];
      if last == "" || last == "." then LastComponent(parts[..|parts| - 1])
      else if last == ".." then None
      else Some(last)
  }

  /** `Path::file_name` of a Unix path. */
  function FileName(path: string): Option<string>
  {
    LastComponent(Split(path, '/'))
  }

  /** The position of the last `.` in a name. */
  function LastDot(name: string): (i: nat)
    requires '.' in name
    ensures i < |name| && name[i] == '.' && '.' !in name[i + 1..]
  {
    if name[|name| - 1] == '.' then |name| - 1
    else
      assert name == name[..|name| - 1] + [name[|name| - 1]];
      var i := LastDot(name[..|name| - 1]);
      assert name[i + 1..] == name[..|name| - 1][i + 1..] + [name[|name| - 1]];
      i
  }

  /** The stem of a file name: everything before its last `.`, unless that `.` opens the name. */
  function StemOf(name: string): (stem: string)
    ensures stem <= name
  {
    if '.' !in name then name
    else
      var i := LastDot(name);
      if i == 0 then name else name[..i]
  }

  /** `Path::file_stem`. */
  function FileStem(path: string): Option<string>
  {
    match FileName(path)
    case None => None
    case Some(name) => Some(StemOf(name))
  }

  /**
   * What `extract_user_id_from_filename` yields: a speaker, nothing, or a
   * panic of `Id::new` on a second field that parses to 0.
   */
  datatype SpeakerId = Speaker(id: UserId) | NoSpeaker | ZeroIdPanic

  /**
   * `extract_user_id_from_filename`: the second `_`-separated field of the
   * file stem, parsed as a `u64`.
   */
  function ExtractUserIdFromFilename(path: string): (r: SpeakerId)
    ensures FileStem(path).None? ==> r == NoSpeaker
    ensures FileStem(path).Some? && |Split(FileStem(path).value, '_')| < 2 ==> r == NoSpeaker
    ensures !r.NoSpeaker? ==> FileStem(path).Some? && |Split(FileStem(path).value, '_')| >= 2
    ensures r.Speaker? ==> ParseU64(Split(FileStem(path).value, '_')[1]) == Some(r.id as U64)
    ensures r.ZeroIdPanic? ==> ParseU64(Split(FileStem(path).value, '_')[1]) == Some(0)
  {
    match FileStem(path)
    case None => NoSpeaker
    case Some(stem) =>
      var parts := Split(stem, '_');
      if |parts| >= 2 then
        match ParseU64(parts[1])
        case None => NoSpeaker
        case Some(v) => if v == 0 then ZeroIdPanic else Speaker(v)
      else NoSpeaker
  }

  /** Every character of a split piece comes from the split string. */
  lemma {:induction false} SplitChars(s: string, sep: char, i: nat)
    requires i < |Split(s, sep)|
    ensures forall c :: c in Split(s, sep)[i] ==> c in s
    decreases |s|
  {
    if |s| > 0 {
      var rest := Split(s[1..], sep);
      if s[0] == sep {
        if i > 0 {
          SplitChars(s[1..], sep, i - 1);
        }
      } else if i == 0 {
        SplitChars(s[1..], sep, 0);
      } else {
        SplitChars(s[1..], sep, i);
      }
    }
  }

  /** A path with no `_` anywhere has no second field, hence no speaker. */
  lemma NoUnderscoreNoSpeaker(path: string)
    requires '_' !in path
    ensures ExtractUserIdFromFilename(path) == NoSpeaker
  {
    var parts := Split(path, '/');
    var name := FileName(path);
    if name.Some? {
      var k :| 0 <= k < |parts| && parts[k] == name.value;
      SplitChars(path, '/', k);
      var stem := StemOf(name.value);
      assert '_' !in stem;
      SplitNoSeparator(stem, '_');
    }
  }

  /** The characters of an artifact stem hold neither a `/` nor a `.`. */
  lemma ArtifactStemPlain(guild: GuildId, speaker: UserId, start: DateTime)
    ensures '/' !in ArtifactStem(guild, speaker, start) && '.' !in ArtifactStem(guild, speaker, start)
  {
    TimestampChars(start);
    var g, s, t := ToDecimal(guild), ToDecimal(speaker), Timestamp(start);
    assert ArtifactStem(guild, speaker, start) == g + "_" + s + "_" + t;
    assert forall i :: 0 <= i < |t| ==> StampChar(t[i]);
  }

  /**
   * Round trip with `finalize`: the path written for a speaker's audio
   * names that speaker, whatever the output directory.
   */
  lemma ExtractArtifactSpeaker(outputDir: string, guild: GuildId, speaker: UserId, start: DateTime)
    ensures ExtractUserIdFromFilename(ArtifactPath(outputDir, guild, speaker, start)) == Speaker(speaker)
  {
    ArtifactFileStem(outputDir, guild, speaker, start);
    ArtifactStemFields(guild, speaker, start);
    ParseDisplayed(speaker);
  }

  /** The stem of an artifact's path is the artifact stem. */
  lemma ArtifactFileStem(outputDir: string, guild: GuildId, speaker: UserId, start: DateTime)
    ensures FileStem(ArtifactPath(outputDir, guild, speaker, start)) == Some(ArtifactStem(guild, speaker, start))
  {
    var stem := ArtifactStem(guild, speaker, start);
    var name := stem + ".wav";
    var path := ArtifactPath(outputDir, guild, speaker, start);
    assert path == outputDir + ['/'] + name;
    ArtifactStemPlain(guild, speaker, start);
    FileNameAfterSlash(outputDir, name);
    ToDecimalNonEmpty(guild);
    assert name == stem + ['.'] + "wav";
    StemOfDotted(stem, "wav");
  }

  /** After the last `/`, a non-empty name that is not `.` or `..` is the file name. */
  lemma FileNameAfterSlash(dir: string, name: string)
    requires '/' !in name && name != "" && name != "." && name != ".."
    ensures FileName(dir + ['/'] + name) == Some(name)
  {
    SplitAppend(dir, '/', name);
    SplitNoSeparator(name, '/');
    assert Split(dir + ['/'] + name, '/') == Split(dir, '/') + [name];
  }

  /** A name with a single `.` has the part before it as its stem. */
  lemma StemOfDotted(stem: string, ext: string)
    requires stem != [] && '.' !in stem && '.' !in ext
    ensures StemOf(stem + ['.'] + ext) == stem
  {
    var name := stem + ['.'] + ext;
    assert name[|stem|] == '.';
    var i := LastDot(name);
  }

  /** Decimal text is never empty, so neither is an artifact stem. */
  lemma ToDecimalNonEmpty(n: nat)
    ensures |ToDecimal(n)| >= 1
  {
  }

  // ---------------------------------------------------------------------
  // Meeting transcript assembly
  // ---------------------------------------------------------------------

  /** What the guild-member lookup returns: an optional nickname and the account name. */
  datatype Member = Member(nick: Option<string>, userName: string)

  /** A member's display name: `nick (name)` when there is a nickname, else the name. */
  function DisplayName(m: Member): string
  {
    match m.nick
    case Some(n) => n + " (" + m.userName + ")"
    case None => m.userName
  }

  /**
   * The label of a transcript line: the member's display name, `User {id}`
   * when the lookup fails (the id is absent from `members`), `Unknown
   * Speaker` when the file name gave no id.
   */
  function SpeakerName(speaker: SpeakerId, members: map<UserId, Member>): string
  {
    match speaker
    case Speaker(id) => if id in members then DisplayName(members[id]) else "User " + ToDecimal(id)
    case _ => "Unknown Speaker"
  }

  /** Each line prefixed with `**[name]**: `. */
  function LabelledLines(name: string, lines: seq<string>): seq<string>
  {
    seq(|lines|, i requires 0 <= i < |lines| => "**[" + name + "]**: " + lines[i])
  }

  /** The labelled lines of one transcription, joined by line feeds. */
  function LabelledText(name: string, transcription: string): string
  {
    Join(LabelledLines(name, Lines(transcription)), "\n")
  }

  /**
   * The labelled text splits back into exactly one labelled line per line
   * of the transcription, each `**[name]**: ` followed by that line.
   */
  lemma LabelledTextLines(name: string, transcription: string)
    requires transcription != [] && '\n' !in name
    ensures var labelled := Split(LabelledText(name, transcription), '\n');
      && |labelled| == |Lines(transcription)|
      && forall i :: 0 <= i < |labelled| ==> labelled[i] == "**[" + name + "]**: " + Lines(transcription)[i]
  {
    var lines := Lines(transcription);
    assert |lines| >= 1;
    var parts := LabelledLines(name, lines);
    forall i | 0 <= i < |parts|
      ensures '\n' !in parts[i]
    {
      assert parts[i] == "**[" + name + "]**: " + lines[i];
      assert '\n' !in lines[i];
    }
    SplitJoin(parts, '\n');
  }

  /** The meeting transcript so far, the transcription errors, and whether the handler panicked. */
  datatype Minutes = Minutes(transcript: string, errors: seq<string>, panicked: bool)

  /**
   * One artifact's contribution: a non-empty transcription adds its
   * labelled text and a blank line; an empty one adds nothing; a failed one
   * adds an error line; a zero speaker id panics before transcription.
   */
  function FileStep(m: Minutes, file: string, members: map<UserId, Member>,
                    transcribe: string -> Result<string, string>): (r: Minutes)
  {
    var speaker := ExtractUserIdFromFilename(file);
    if speaker.ZeroIdPanic? then m.(panicked := true)
    else
      match transcribe(file)
      case Ok(t) =>
        if t == "" then m
        else m.(transcript := m.transcript + LabelledText(SpeakerName(speaker, members), t) + "\n\n")
      case Err(e) => m.(errors := m.errors + ["File " + file + ": " + e])
  }

  /** The artifacts processed in order, stopping at a panic. */
  function MinutesOf(files: seq<string>, members: map<UserId, Member>,
                     transcribe: string -> Result<string, string>): Minutes
  {
    if files == [] then Minutes("", [], false)
    else
      var prev := MinutesOf(files[..|files| - 1], members, transcribe);
      if prev.panicked then prev else FileStep(prev, files[|files| - 1], members, transcribe)
  }

  /** Once panicked, later artifacts change nothing. */
  lemma {:induction false} PanicStays(files: seq<string>, i: nat, members: map<UserId, Member>,
                                      transcribe: string -> Result<string, string>)
    requires i <= |files| && MinutesOf(files[..i], members, transcribe).panicked
    ensures MinutesOf(files, members, transcribe) == MinutesOf(files[..i], members, transcribe)
    decreases |files| - i
  {
    if i < |files| {
      assert files[..i + 1][..i] == files[..i];
      PanicStays(files, i + 1, members, transcribe);
    } else {
      assert files[..i] == files;
    }
  }

  /**
   * The transcription loop of `handle_reaction_remove`: for each artifact,
   * the speaker's name, then the labelled transcription appended to the
   * full transcript.
   */
  method AssembleTranscript(files: seq<string>, members: map<UserId, Member>,
                            transcribe: string -> Result<string, string>)
    returns (transcript: string, errors: seq<string>, panicked: bool)
    ensures Minutes(transcript, errors, panicked) == MinutesOf(files, members, transcribe)
  {
    transcript, errors, panicked := "", [], false;
    var i := 0;
    assert files[..0] == [];
    while i < |files| && !panicked
      invariant 0 <= i <= |files|
      invariant Minutes(transcript, errors, panicked) == MinutesOf(files[..i], members, transcribe)
    {
      assert files[..i + 1][..i] == files[..i];
      var file := files[i];
      var speaker := ExtractUserIdFromFilename(file);
      if speaker.ZeroIdPanic? {
        panicked := true;
      } else {
        var name := SpeakerName(speaker, members);
        var result := transcribe(file);
        match result {
          case Ok(t) =>
            if t != "" {
              var labelled := LabelledText(name, t);
              transcript := transcript + labelled + "\n\n";
            }
          case Err(e) =>
            errors := errors + ["File " + file + ": " + e];
        }
      }
      i := i + 1;
    }
    if i < |files| {
      PanicStays(files, i, members, transcribe);
    } else {
      assert files[..i] == files;
    }
  }

  /** No artifact's file name holds a zero speaker id. */
  ghost predicate NoZeroIds(files: seq<string>)
  {
    forall i :: 0 <= i < |files| ==> !ExtractUserIdFromFilename(files[i]).ZeroIdPanic?
  }

  /** A transcription that yields text for the transcript. */
  predicate Spoken(t: Result<string, string>)
  {
    t.Ok? && t.value != ""
  }

  /** One artifact with a usable id leaves the transcript empty exactly when it was empty and nothing was said. */
  lemma FileStepTranscript(m: Minutes, file: string, members: map<UserId, Member>,
                           transcribe: string -> Result<string, string>)
    requires !ExtractUserIdFromFilename(file).ZeroIdPanic?
    ensures FileStep(m, file, members, transcribe).panicked == m.panicked
    ensures FileStep(m, file, members, transcribe).transcript == "" <==> m.transcript == "" && !Spoken(transcribe(file))
  {
  }

  /** Nothing spoken in all artifacts splits into the earlier ones and the last. */
  lemma NoneSpokenSplit(init: seq<string>, last: string, transcribe: string -> Result<string, string>)
    ensures (forall i :: 0 <= i < |init + [last]| ==> !Spoken(transcribe((init + [last])[i]))) <==>
      (forall i :: 0 <= i < |init| ==> !Spoken(transcribe(init[i]))) && !Spoken(transcribe(last))
  {
    assert forall i :: 0 <= i < |init| ==> (init + [last])[i] == init[i];
    assert (init + [last])[|init|] == last;
  }

  /**
   * The transcript stays empty (and "No audio detected" is reported)
   * exactly when no artifact was transcribed to non-empty text.
   */
  lemma {:induction false} EmptyTranscriptIff(files: seq<string>, members: map<UserId, Member>,
                                              transcribe: string -> Result<string, string>)
    requires NoZeroIds(files)
    ensures !MinutesOf(files, members, transcribe).panicked
    ensures MinutesOf(files, members, transcribe).transcript == "" <==>
      forall i :: 0 <= i < |files| ==> !Spoken(transcribe(files[i]))
  {
    if files != [] {
      var init := files[..|files| - 1];
      var last := files[|files| - 1];
      assert forall i :: 0 <= i < |init| ==> init[i] == files[i];
      EmptyTranscriptIff(init, members, transcribe);
      FileStepTranscript(MinutesOf(init, members, transcribe), last, members, transcribe);
      assert files == init + [last];
      NoneSpokenSplit(init, last, transcribe);
    }
  }

  // ---------------------------------------------------------------------
  // /translate_set
  // ---------------------------------------------------------------------

  /** A command option's value; only string values are read. */
  datatype OptionValue = StringValue(s: string) | OtherValue

  datatype CommandOption = CommandOption(name: string, value: OptionValue)

  /** The string value of the last option with this name, if any. */
  function LastString(options: seq<CommandOption>, name: string): (r: Option<string>)
    ensures r.Some? ==> exists i :: 0 <= i < |options| && options[i] == CommandOption(name, StringValue(r.value))
    ensures r.None? ==> forall i :: 0 <= i < |options| ==> !(options[i].name == name && options[i].value.StringValue?)
  {
    if options == [] then None
    else
      var last := options[|options| - 1];
      if last.name == name && last.value.StringValue? then Some(last.value.s)
      else
        var r := LastString(options[..|options| - 1], name);
        assert forall i :: 0 <= i < |options| - 1 ==> options[..|options| - 1][i] == options[i];
        r
  }

  /** The option loop of `handle_translate_set`: a later `source` or `target` overrides an earlier one. */
  method ReadLanguageOptions(options: seq<CommandOption>) returns (source: Option<string>, target: Option<string>)
    ensures source == LastString(options, "source") && target == LastString(options, "target")
  {
    source, target := None, None;
    var i := 0;
    assert options[..0] == [];
    while i < |options|
      invariant 0 <= i <= |options|
      invariant source == LastString(options[..i], "source") && target == LastString(options[..i], "target")
    {
      assert options[..i + 1][..i] == options[..i];
      var option := options[i];
      if option.name == "source" {
        if option.value.StringValue? {
          source := Some(option.value.s);
        }
      } else if option.name == "target" {
        if option.value.StringValue? {
          target := Some(option.value.s);
        }
      }
      i := i + 1;
    }
    assert options[..i] == options;
  }

  /** The answers `handle_translate_set` can give. */
  datatype SetReply =
    | LanguagesSet(source: string, target: string)
    | MissingLanguage      // "Please select both source and target languages"
    | InvalidLanguage      // "Invalid language codes. Use: ja, ko, or en"
    | UnknownUser          // "Could not identify user"
    | NoReply              // not an application command: nothing is sent

  /** The validation of `/translate_set`: both languages given, and each one of ja, ko, en. */
  function ValidateLanguages(source: Option<string>, target: Option<string>): (r: SetReply)
    ensures r.LanguagesSet? <==>
      source.Some? && target.Some? && source.value in ShortCodes && target.value in ShortCodes
    ensures r.LanguagesSet? ==> r.source == source.value && r.target == target.value
    ensures source.None? || target.None? ==> r == MissingLanguage
    ensures !r.LanguagesSet? ==> r == MissingLanguage || r == InvalidLanguage
  {
    match (source, target)
    case (Some(s), Some(t)) =>
      if s !in ShortCodes || t !in ShortCodes then InvalidLanguage else LanguagesSet(s, t)
    case _ => MissingLanguage
  }

  /**
   * `handle_translate_set`: the user's setting is stored only when the
   * languages are accepted; otherwise the settings are untouched.
   */
  method HandleTranslateSet(settings: UserSettingsManager, user: Option<UserId>,
                            options: Option<seq<CommandOption>>) returns (reply: SetReply)
    modifies settings
    ensures user.None? ==> reply == UnknownUser
    ensures user.Some? && options.None? ==> reply == NoReply
    ensures user.Some? && options.Some? ==>
      reply == ValidateLanguages(LastString(options.value, "source"), LastString(options.value, "target"))
    ensures reply.LanguagesSet? ==>
      && user.Some? && reply.source in ShortCodes && reply.target in ShortCodes
      && settings.settings == old(settings.settings)[user.value := NewSetting(reply.source, reply.target)]
    ensures !reply.LanguagesSet? ==> settings.settings == old(settings.settings)
  {
    if user.None? {
      return UnknownUser;
    }
    if options.None? {
      return NoReply;
    }
    var source, target := ReadLanguageOptions(options.value);
    reply := ValidateLanguages(source, target);
    if reply.LanguagesSet? {
      settings.SetUserLanguage(user.value, reply.source, reply.target);
    }
  }

  /**
   * A short code's full name, as the pipeline passes it to `translate`, is
   * accepted by `map_language_code` and maps to the same DeepL code as the
   * short code itself.
   */
  lemma FullNameAccepted(code: string)
    requires code in ShortCodes
    ensures Translator.MapLanguageCode(ToFullName(code)).Ok?
    ensures Translator.MapLanguageCode(ToFullName(code)) == Translator.MapLanguageCode(code)
  {
    FullNameCode(code);
    ShortCodeCode(code);
  }

  /** The DeepL code of a short code. */
  function DeepLCodeOf(code: string): string
  {
    if code == "ja" then "JA" else if code == "ko" then "KO" else "EN-US"
  }

  lemma FullNameCode(code: string)
    requires code in ShortCodes
    ensures Translator.MapLanguageCode(ToFullName(code)) == Ok(DeepLCodeOf(code))
  {
    var name := ToFullName(code);
    var lower := if code == "ja" then "japanese" else if code == "ko" then "korean" else "english";
    assert Translator.CodeFor(lower) == Some(DeepLCodeOf(code));
    Translator.MapByLowercase(name, lower);
  }

  lemma ShortCodeCode(code: string)
    requires code in ShortCodes
    ensures Translator.MapLanguageCode(code) == Ok(DeepLCodeOf(code))
  {
    assert Translator.CodeFor(code) == Some(DeepLCodeOf(code));
    Translator.MapByLowercase(code, code);
  }

  // ---------------------------------------------------------------------
  // The 🔴 recording control
  // ---------------------------------------------------------------------

  /** A reaction's emoji. */
  datatype Emoji = Unicode(name: string) | Custom(id: nat)

  /** The recording control emoji. */
  predicate IsRecordEmoji(e: Emoji)
  {
    e == Unicode("🔴")
  }

  /** A control message, as registered by `/record`: message, channel, guild and the user who asked. */
  datatype ControlKey = ControlKey(message: MessageId, channel: ChannelId, guild: GuildId, user: UserId)

  /** A reaction added or removed by a user. */
  datatype Reaction = Reaction(emoji: Emoji, message: MessageId, channel: ChannelId, guild: Option<GuildId>, user: UserId)

  function KeyOf(r: Reaction): ControlKey
    requires r.guild.Some?
  {
    ControlKey(r.message, r.channel, r.guild.value, r.user)
  }

  /**
   * The controls after a reaction is added: a 🔴 on a registered control
   * that is off turns it on once the bot has joined the user's voice
   * channel; everything else leaves the controls as they were.
   */
  function ControlsAfterAdd(controls: map<ControlKey, bool>, r: Reaction, joined: bool): map<ControlKey, bool>
  {
    if r.guild.Some? && IsRecordEmoji(r.emoji) && KeyOf(r) in controls && !controls[KeyOf(r)] && joined
    then controls[KeyOf(r) := true]
    else controls
  }

  /** The controls after a reaction is removed: a 🔴 on a control that is on turns it off, keeping the entry. */
  function ControlsAfterRemove(controls: map<ControlKey, bool>, r: Reaction): map<ControlKey, bool>
  {
    if r.guild.Some? && IsRecordEmoji(r.emoji) && KeyOf(r) in controls && controls[KeyOf(r)]
    then controls[KeyOf(r) := false]
    else controls
  }

  /** Adding then removing the 🔴 on a control that was off restores it, so it can be started again. */
  lemma ToggleRoundTrip(controls: map<ControlKey, bool>, r: Reaction)
    requires r.guild.Some? && IsRecordEmoji(r.emoji) && KeyOf(r) in controls && !controls[KeyOf(r)]
    ensures ControlsAfterRemove(ControlsAfterAdd(controls, r, true), r) == controls
  {
    var k := KeyOf(r);
    assert controls[k := true][k := false] == controls;
  }

  /** Neither handler registers or forgets a control; a second add changes nothing. */
  lemma ControlsKeepKeys(controls: map<ControlKey, bool>, r: Reaction, joined: bool)
    ensures ControlsAfterAdd(controls, r, joined).Keys == controls.Keys
    ensures ControlsAfterRemove(controls, r).Keys == controls.Keys
    ensures ControlsAfterAdd(ControlsAfterAdd(controls, r, joined), r, joined) == ControlsAfterAdd(controls, r, joined)
  {
  }

  /** How `handle_reaction_add` ends. */
  datatype AddOutcome =
    | NoGuild
    | OtherEmoji
    | UnknownControl
    | AlreadyRecording
    | NotInVoice      // "You must be in a voice channel to start recording!"
    | JoinFailed      // "Failed to join voice channel"
    | RecordingStarted(voiceChannel: ChannelId)

  /** How `handle_reaction_remove` ends when it does not fail. */
  datatype RemoveOutcome = Ignored | Stopped(session: Option<RecordingSession>)

  /** The `reaction_controls` map: for each control message, whether its recording is on. */
  class ReactionControls {
    var controls: map<ControlKey, bool>

    constructor ()
      ensures controls == map[]
    {
      controls := map[];
    }

    /** `/record` registers its control message as off. */
    method Register(key: ControlKey)
      modifies this
      ensures controls == old(controls)[key := false]
    {
      controls := controls[key := false];
    }

    /**
     * `handle_reaction_add`: a 🔴 on a control that is off starts a
     * recording of the user's voice channel and turns the control on,
     * provided the user is in a voice channel and the join succeeds.
     */
    method ReactionAdd(r: Reaction, voiceStates: map<UserId, ChannelId>, joinOk: bool,
                       recorder: RecordingManager, now: DateTime) returns (outcome: AddOutcome)
      modifies this, recorder
      ensures controls == ControlsAfterAdd(old(controls), r, r.user in voiceStates && joinOk)
      ensures outcome.RecordingStarted? <==>
        r.guild.Some? && IsRecordEmoji(r.emoji) && KeyOf(r) in old(controls) && !old(controls)[KeyOf(r)]
        && r.user in voiceStates && joinOk
      ensures r.guild.None? ==> outcome == NoGuild
      ensures outcome.RecordingStarted? ==>
        && outcome.voiceChannel == voiceStates[r.user]
        && recorder.IsRecording(r.guild.value)
        && recorder.activeSessions[r.guild.value].channelId == outcome.voiceChannel
        && fresh(recorder.activeSessions[r.guild.value])
        && recorder.activeSessions[r.guild.value].guildId == r.guild.value
        && recorder.activeSessions[r.guild.value].startTime == now
        && recorder.activeSessions[r.guild.value].speakerBuffers == map[]
        && recorder.activeSessions - {r.guild.value} == old(recorder.activeSessions) - {r.guild.value}
      ensures !outcome.RecordingStarted? ==> recorder.activeSessions == old(recorder.activeSessions)
    {
      if r.guild.None? {
        return NoGuild;
      }
      if !IsRecordEmoji(r.emoji) {
        return OtherEmoji;
      }
      var key := KeyOf(r);
      if key !in controls {
        return UnknownControl;
      }
      if controls[key] {
        return AlreadyRecording;
      }
      if r.user !in voiceStates {
        return NotInVoice;
      }
      var channel := voiceStates[r.user];
      if !joinOk {
        return JoinFailed;
      }
      var session := recorder.StartRecording(r.guild.value, channel, now);
      controls := controls[key := true];
      outcome := RecordingStarted(channel);
    }

    /**
     * `handle_reaction_remove` up to `stop_recording`: a 🔴 removed from a
     * control that is on turns it off and takes the guild's recording out
     * of the manager; a reaction outside a guild is an error.
     */
    method ReactionRemove(r: Reaction, recorder: RecordingManager) returns (result: Result<RemoveOutcome, string>)
      modifies this, recorder
      ensures controls == ControlsAfterRemove(old(controls), r)
      ensures r.guild.None? <==> result == Err("No guild")
      ensures result.Ok? && result.value.Stopped? <==>
        r.guild.Some? && IsRecordEmoji(r.emoji) && KeyOf(r) in old(controls) && old(controls)[KeyOf(r)]
      ensures result.Ok? && result.value.Stopped? ==>
        var g := r.guild.value;
        && result.value.session == (if g in old(recorder.activeSessions) then Some(old(recorder.activeSessions)[g]) else None)
        && recorder.activeSessions == old(recorder.activeSessions) - {g}
      ensures !(result.Ok? && result.value.Stopped?) ==> recorder.activeSessions == old(recorder.activeSessions)
    {
      if r.guild.None? {
        return Err("No guild");
      }
      if !IsRecordEmoji(r.emoji) {
        return Ok(Ignored);
      }
      var key := KeyOf(r);
      if key !in controls || !controls[key] {
        return Ok(Ignored);
      }
      controls := controls[key := false];
      var stopped := recorder.StopRecording(r.guild.value);
      result := Ok(Stopped(stopped.value));
    }
  }

  // ---------------------------------------------------------------------
  // /translate_start
  // ---------------------------------------------------------------------

  /** The answers `handle_translate_start` can give. */
  datatype StartReply =
    | NotInServer          // "This command can only be used in a server"
    | RecordingInProgress  // "Cannot start translation while recording is in progress"
    | AlreadyTranslating   // "Translation is already active"
    | Silent               // no user on the interaction: nothing is sent
    | MustBeInVoice        // "You must be in a voice channel"
    | JoinVoiceFailed      // "Failed to join voice channel: …"
    | TranslationStarted(voiceChannel: ChannelId)

  /**
   * `handle_translate_start`: refused while the guild records or already
   * translates, so a running translation session is never replaced; when
   * it starts, the guild gets a fresh ja→en session on the user's voice
   * channel.
   */
  method HandleTranslateStart(recorder: RecordingManager, manager: VoiceTranslator.TranslationManager,
                              guild: Option<GuildId>, user: Option<UserId>,
                              voiceStates: map<UserId, ChannelId>, joinOk: bool, now: Millis)
    returns (reply: StartReply)
    requires manager.Valid()
    modifies manager
    ensures manager.Valid()
    ensures guild.None? ==> reply == NotInServer
    ensures guild.Some? && recorder.IsRecording(guild.value) ==> reply == RecordingInProgress
    ensures guild.Some? && !recorder.IsRecording(guild.value) && old(manager.IsTranslating(guild.value)) ==>
      reply == AlreadyTranslating
    ensures reply.TranslationStarted? <==>
      && guild.Some? && !recorder.IsRecording(guild.value) && !old(manager.IsTranslating(guild.value))
      && user.Some? && user.value in voiceStates && joinOk
    ensures reply.TranslationStarted? ==>
      var g := guild.value;
      && reply.voiceChannel == voiceStates[user.value]
      && g !in old(manager.activeSessions)
      && manager.activeSessions.Keys == old(manager.activeSessions).Keys + {g}
      && manager.activeSessions - {g} == old(manager.activeSessions) - {g}
      && manager.activeSessions[g].channelId == reply.voiceChannel
      && manager.activeSessions[g].translationPair == VoiceTranslator.TranslationPair("ja", "en")
      && manager.activeSessions[g].View() == VoiceTranslator.SessionView(map[], map[])
    ensures !reply.TranslationStarted? ==> manager.activeSessions == old(manager.activeSessions)
  {
    if guild.None? {
      return NotInServer;
    }
    var g := guild.value;
    if recorder.IsRecording(g) {
      return RecordingInProgress;
    }
    if manager.IsTranslating(g) {
      return AlreadyTranslating;
    }
    if user.None? {
      return Silent;
    }
    if user.value !in voiceStates {
      return MustBeInVoice;
    }
    var channel := voiceStates[user.value];
    if !joinOk {
      return JoinVoiceFailed;
    }
    var session := manager.StartTranslation(g, channel, VoiceTranslator.TranslationPair("ja", "en"), now);
    reply := TranslationStarted(channel);
  }

  // ---------------------------------------------------------------------
  // The translation pipeline of one utterance
  // ---------------------------------------------------------------------

  /** The fewest samples an utterance needs to be transcribed (half a second at 48 kHz). */
  const MinUtteranceSamples: nat := 24000

  /** ASCII upper case, as the embed's language tags use it. */
  function UpperChar(c: char): char
  {
    if 'a' <= c <= 'z' then (c as int - 32) as char else c
  }

  function Uppercase(s: string): (r: string)
    ensures |r| == |s| && forall i :: 0 <= i < |s| ==> r[i] == UpperChar(s[i])
  {
    seq(|s|, i requires 0 <= i < |s| => UpperChar(s[i]))
  }

  /** What becomes of one ready buffer. */
  datatype Utterance =
    | NoSetting
    | TooShort
    | TranscriptionFailed(error: string)
    | NothingSaid
    | TranslationFailed(failure: Translator.TranslateError)
    | Posted(original: string, translated: string, sourceTag: string, targetTag: string)

  /**
   * The job `process_translation_loop` spawns for a ready buffer: users
   * without a setting and buffers under 24000 samples are skipped; the
   * audio, downsampled, is transcribed in the user's language; blank text
   * is not translated; the translation from and to the full language names
   * is posted with the original.
   */
  function ProcessUtterance(setting: Option<UserLanguageSetting>, samples: seq<i16>,
                            w: Transcriber.Whisper, replies: nat -> Translator.Reply): (r: Utterance)
    ensures setting.None? ==> r == NoSetting
    ensures setting.Some? && |samples| < MinUtteranceSamples ==> r == TooShort
    ensures r.TranslationFailed? || r.Posted? ==> setting.Some? && |samples| >= MinUtteranceSamples
    ensures r.Posted? ==> Trim(r.original) != []
    ensures r.Posted? ==> r.sourceTag == Uppercase(setting.value.sourceLang) && r.targetTag == Uppercase(setting.value.targetLang)
    ensures setting.Some? && |samples| >= MinUtteranceSamples ==>
      r == AfterTranscription(setting.value, Transcriber.Transcription(w, Transcriber.Downsample(samples), Some(setting.value.sourceLang)), replies)
  {
    match setting
    case None => NoSetting
    case Some(s) =>
      if |samples| < MinUtteranceSamples then TooShort
      else AfterTranscription(s, Transcriber.Transcription(w, Transcriber.Downsample(samples), Some(s.sourceLang)), replies)
  }

  /** What follows a transcription: an error is logged, blank text is dropped, anything else is translated. */
  function AfterTranscription(s: UserLanguageSetting, transcribed: Result<(string, string), string>,
                              replies: nat -> Translator.Reply): (r: Utterance)
    ensures r.Posted? ==> Trim(r.original) != []
    ensures r.Posted? ==> r.sourceTag == Uppercase(s.sourceLang) && r.targetTag == Uppercase(s.targetLang)
    ensures transcribed.Err? ==> r == TranscriptionFailed(transcribed.error)
    ensures transcribed.Ok? && Trim(transcribed.value.0) == [] ==> r == NothingSaid
    ensures transcribed.Ok? && Trim(transcribed.value.0) != [] ==> r == Translated(s, transcribed.value.0, replies)
  {
    match transcribed
    case Err(e) => TranscriptionFailed(e)
    case Ok((text, _)) => if Trim(text) == [] then NothingSaid else Translated(s, text, replies)
  }

  /** The `translate` call and the embed it leads to. */
  function Translated(s: UserLanguageSetting, text: string, replies: nat -> Translator.Reply): (r: Utterance)
    ensures r.TranslationFailed? || r.Posted?
    ensures r.Posted? ==> r.original == text && r.sourceTag == Uppercase(s.sourceLang) && r.targetTag == Uppercase(s.targetLang)
    ensures var run := Translator.Translation(text, s.SourceFull(), s.TargetFull(), replies);
      && (r.Posted? <==> run.result.Ok?)
      && (r.Posted? ==> r.translated == run.result.value)
      && (r.TranslationFailed? ==> r.failure == run.result.error)
  {
    var run := Translator.Translation(text, s.SourceFull(), s.TargetFull(), replies);
    match run.result
    case Err(e) => TranslationFailed(e)
    case Ok(translated) => Posted(text, translated, Uppercase(s.sourceLang), Uppercase(s.targetLang))
  }

  /**
   * For a setting made through `/translate_set`, a translation never fails
   * on the language names: the full names are always accepted.
   */
  lemma PipelineLanguagesAccepted(setting: UserLanguageSetting, samples: seq<i16>,
                                  w: Transcriber.Whisper, replies: nat -> Translator.Reply)
    requires setting.sourceLang in ShortCodes && setting.targetLang in ShortCodes
    ensures var r := ProcessUtterance(Some(setting), samples, w, replies);
      r.TranslationFailed? ==> !r.failure.UnsupportedLanguage?
  {
    var transcribed := Transcriber.Transcription(w, Transcriber.Downsample(samples), Some(setting.sourceLang));
    if transcribed.Ok? {
      TranslatedAccepted(setting, transcribed.value.0, replies);
    }
  }

  /** The full names of a short-code setting pass `translate`'s language check. */
  lemma TranslatedAccepted(setting: UserLanguageSetting, text: string, replies: nat -> Translator.Reply)
    requires setting.sourceLang in ShortCodes && setting.targetLang in ShortCodes
    ensures var r := Translated(setting, text, replies);
      r.TranslationFailed? ==> !r.failure.UnsupportedLanguage?
  {
    FullNameAccepted(setting.sourceLang);
    FullNameAccepted(setting.targetLang);
    Translator.AcceptedNamesNeverUnsupported(text, setting.SourceFull(), setting.TargetFull(), replies);
  }
}

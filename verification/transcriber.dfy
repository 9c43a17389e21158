/**
 * Speech-to-text glue around Whisper: the language-id table, segment
 * assembly, the script-based language guess, the hallucination filter,
 * 48 kHz to 16 kHz decimation and the sample-rate dispatch for recorded
 * artifacts.
 *
 * Whisper itself is uninterpreted: a `Whisper` value says what the
 * detection pass and the transcription pass return for given audio.
 * Samples are carried as their `i16` source values; the conversion to
 * `f32` (a division by 32768) and the RMS energy are not part of this
 * model, so low energy is a boolean input.
 */
module Transcriber {
  import opened Types
  import opened Text
  import opened Decimal

  type I32 = x: int | -0x8000_0000 <= x < 0x8000_0000

  /** Whisper's language codes, indexed by language id, fifteen to a row. */
  const LanguageCodes: seq<string> := Codes0 + Codes15 + Codes30 + Codes45 + Codes60 + Codes75 + Codes90

  const Codes0: seq<string> := ["en", "zh", "de", "es", "ru", "ko", "fr", "ja", "pt", "tr", "pl", "ca", "nl", "ar", "sv"]
  const Codes15: seq<string> := ["it", "id", "hi", "fi", "vi", "he", "uk", "el", "ms", "cs", "ro", "da", "hu", "ta", "no"]
  const Codes30: seq<string> := ["th", "ur", "hr", "bg", "lt", "la", "mi", "ml", "cy", "sk", "te", "fa", "lv", "bn", "sr"]
  const Codes45: seq<string> := ["az", "sl", "kn", "et", "mk", "br", "eu", "is", "hy", "ne", "mn", "bs", "kk", "sq", "sw"]
  const Codes60: seq<string> := ["gl", "mr", "pa", "si", "km", "sn", "yo", "so", "af", "oc", "ka", "be", "tg", "sd", "gu"]
  const Codes75: seq<string> := ["am", "yi", "lo", "uz", "fo", "ht", "ps", "tk", "nn", "mt", "sa", "lb", "my", "bo", "tl"]
  const Codes90: seq<string> := ["mg", "as", "tt", "haw", "ln", "ha", "ba", "jw", "su"]

  /** `x as usize` on a 64-bit target: a negative id wraps to a huge index. */
  function AsUsize(x: I32): nat
  {
    if x >= 0 then x else x + 0x1_0000_0000_0000_0000
  }

  /** `get_lang_str_from_id`: the table entry for the id, or "en" when the (wrapped) index is out of range. */
  function GetLangStrFromId(langId: I32): (code: string)
    ensures code in LanguageCodes
    ensures 0 <= langId < |LanguageCodes| ==> code == LanguageCodes[langId]
    ensures (langId < 0 || langId >= |LanguageCodes|) ==> code == "en"
  {
    var i := AsUsize(langId);
    if i < |LanguageCodes| then LanguageCodes[i]
    else
      assert LanguageCodes[0] == "en";
      "en"
  }

  /** The table has 99 entries; "en" is id 0, "ko" id 5 and "ja" id 7. */
  lemma LanguageTable()
    ensures |LanguageCodes| == 99
    ensures LanguageCodes[0] == "en" && LanguageCodes[5] == "ko" && LanguageCodes[7] == "ja"
  {
  }

  /** `downsample_48k_to_16k`: every third sample, starting with the first. */
  function Downsample<T>(samples: seq<T>): (r: seq<T>)
    ensures |r| == (|samples| + 2) / 3
    ensures forall i :: 0 <= i < |r| ==> r[i] == samples[3 * i]
  {
    if |samples| <= 3 then (if samples == [] then [] else [samples[0]])
    else [samples[0]] + Downsample(samples[3..])
  }

  /** Decimation can be done block by block: a prefix whose length is a multiple of 3 downsamples on its own. */
  lemma DownsampleAppend<T>(a: seq<T>, b: seq<T>)
    requires |a| % 3 == 0
    ensures Downsample(a + b) == Downsample(a) + Downsample(b)
  {
    var l, r := Downsample(a + b), Downsample(a) + Downsample(b);
    assert |l| == |r|;
    forall i | 0 <= i < |l|
      ensures l[i] == r[i]
    {
      if i < |a| / 3 {
        assert (a + b)[3 * i] == a[3 * i];
      } else {
        assert (a + b)[3 * i] == b[3 * (i - |a| / 3)];
      }
    }
  }

  /** The text of a whole transcription: each non-blank segment followed by a space. */
  function Assembled(segments: seq<string>): string
  {
    if segments == [] then ""
    else
      var last := segments[|segments| - 1];
      Assembled(segments[..|segments| - 1]) + (if IsBlank(last) then "" else last + " ")
  }

  /** The segments that are not blank, in order. */
  function NonBlank(segments: seq<string>): (r: seq<string>)
    ensures |r| <= |segments|
    ensures forall i :: 0 <= i < |r| ==> !IsBlank(r[i])
  {
    if segments == [] then []
    else
      var last := segments[|segments| - 1];
      NonBlank(segments[..|segments| - 1]) + (if IsBlank(last) then [] else [last])
  }

  /** Parts joined by single spaces, with one more space after the last; nothing for no parts. */
  function SpacedJoin(parts: seq<string>): string
  {
    if parts == [] then "" else Join(parts, " ") + " "
  }

  /** Assembly is the non-blank segments joined by single spaces, plus one trailing space. */
  lemma {:induction false} AssembledIsJoin(segments: seq<string>)
    ensures Assembled(segments) == SpacedJoin(NonBlank(segments))
  {
    if segments != [] {
      var init, last := segments[..|segments| - 1], segments[|segments| - 1];
      AssembledIsJoin(init);
      if IsBlank(last) {
        assert NonBlank(segments) == NonBlank(init);
      } else {
        AssembledStep(init, last);
        assert segments == init + [last];
      }
    }
  }

  lemma AssembledStep(init: seq<string>, last: string)
    requires !IsBlank(last)
    requires Assembled(init) == SpacedJoin(NonBlank(init))
    ensures Assembled(init + [last]) == SpacedJoin(NonBlank(init + [last]))
  {
    var segments := init + [last];
    assert segments[..|segments| - 1] == init;
    assert NonBlank(segments) == NonBlank(init) + [last];
    if NonBlank(init) != [] {
      JoinSnoc(NonBlank(init), " ", last);
    }
  }

  /** `extract_text` joins the non-blank segments with single spaces and trims the result. */
  lemma ExtractedText(segments: seq<string>)
    ensures Trim(Assembled(segments)) == Trim(Join(NonBlank(segments), " "))
  {
    AssembledIsJoin(segments);
    if NonBlank(segments) != [] {
      TrimTrailingSpace(Join(NonBlank(segments), " "));
    }
  }

  /** When every segment is blank there is no text. */
  lemma AllBlankNoText(segments: seq<string>)
    requires forall i :: 0 <= i < |segments| ==> IsBlank(segments[i])
    ensures Trim(Assembled(segments)) == ""
  {
    AssembledIsJoin(segments);
    assert NonBlank(segments) == [] by { AllBlankNone(segments); }
  }

  lemma {:induction false} AllBlankNone(segments: seq<string>)
    requires forall i :: 0 <= i < |segments| ==> IsBlank(segments[i])
    ensures NonBlank(segments) == []
  {
    if segments != [] {
      AllBlankNone(segments[..|segments| - 1]);
    }
  }

  /** `extract_text`: the loop that appends each non-blank segment and a space, then trims. */
  method ExtractText(segments: seq<string>) returns (text: string)
    ensures text == Trim(Assembled(segments))
  {
    var transcription := "";
    for i := 0 to |segments|
      invariant transcription == Assembled(segments[..i])
    {
      var segment := segments[i];
      if !IsBlank(segment) {
        transcription := transcription + segment;
        transcription := transcription + " ";
      }
      assert segments[..i + 1][..i] == segments[..i];
    }
    assert segments[..|segments|] == segments;
    text := Trim(transcription);
  }

  /** `Transcriber::detect_language_local`: "ja" for mostly Japanese text, "en" otherwise. */
  method DetectLanguageLocal(text: string) returns (lang: string)
    ensures lang == if MostlyJapanese(text) then "ja" else "en"
  {
    var hiragana, katakana, kanji := CountJapanese(text);
    var totalChars := |text|;
    var japaneseChars := hiragana + katakana + kanji;
    if totalChars > 0 && japaneseChars * 10 > totalChars {
      lang := "ja";
    } else {
      lang := "en";
    }
  }

  /** What the first (detection) pass of Whisper yields: a language id, or an error, and its segments. */
  datatype FirstPass = FirstPass(langDetect: Result<I32, string>, segments: seq<string>)

  /**
   * An uninterpreted Whisper model: the detection pass on some audio, and
   * the transcription pass on some audio in a given language (each may fail).
   */
  datatype Whisper = Whisper(
    firstPass: seq<i16> -> Result<FirstPass, string>,
    secondPass: (seq<i16>, string) -> Result<seq<string>, string>)

  /** The language `transcribe_with_language` settles on for non-empty audio: the hint, else one of Whisper's codes. */
  function DetectedLanguage(w: Whisper, audio: seq<i16>, language: Option<string>): (r: Result<string, string>)
    ensures language.Some? ==> r == Ok(language.value)
    ensures language.None? && r.Ok? ==> r.value in LanguageCodes
  {
    if language.Some? then Ok(language.value)
    else match w.firstPass(audio)
      case Err(e) => Err(e)
      case Ok(pass) =>
        match pass.langDetect
        case Ok(id) => Ok(GetLangStrFromId(id))
        case Err(_) =>
          assert LanguageCodes[0] == "en" && LanguageCodes[7] == "ja";
          Ok(if MostlyJapanese(Trim(Assembled(pass.segments))) then "ja" else "en")
  }

  /**
   * `transcribe_with_language`: (text, language). Empty audio never reaches
   * the model and gives ("", "en"); a language hint is the language
   * reported; without a hint the language is always one of Whisper's codes;
   * the text is always trimmed.
   */
  function Transcription(w: Whisper, audio: seq<i16>, language: Option<string>): (r: Result<(string, string), string>)
    ensures audio == [] ==> r == Ok(("", "en"))
    ensures audio != [] && language.Some? && r.Ok? ==> r.value.1 == language.value
    ensures language.None? && r.Ok? ==> r.value.1 in LanguageCodes
    ensures r.Ok? ==> r.value.0 == [] || (!IsWhitespace(r.value.0[0]) && !IsWhitespace(r.value.0[|r.value.0| - 1]))
  {
    if audio == [] then
      assert LanguageCodes[0] == "en";
      Ok(("", "en"))
    else match DetectedLanguage(w, audio, language)
      case Err(e) => Err(e)
      case Ok(lang) =>
        match w.secondPass(audio, lang)
        case Err(e) => Err(e)
        case Ok(segments) => Ok((Trim(Assembled(segments)), lang))
  }

  /** `transcribe_with_language`, with the two passes and the segment loop. */
  method TranscribeWithLanguage(w: Whisper, audio: seq<i16>, language: Option<string>) returns (r: Result<(string, string), string>)
    ensures r == Transcription(w, audio, language)
  {
    if audio == [] {
      return Ok(("", "en"));
    }
    var detected: string;
    if language.Some? {
      detected := language.value;
    } else {
      var first := w.firstPass(audio);
      if first.Err? {
        return Err(first.error);
      }
      match first.value.langDetect {
        case Ok(id) =>
          detected := GetLangStrFromId(id);
        case Err(_) =>
          var text := ExtractText(first.value.segments);
          detected := DetectLanguageLocal(text);
      }
    }
    var second := w.secondPass(audio, detected);
    if second.Err? {
      return Err(second.error);
    }
    var transcription := ExtractText(second.value);
    r := Ok((transcription, detected));
  }

  /** `transcribe`: the text of `transcribe_with_language`. */
  method Transcribe(w: Whisper, audio: seq<i16>, language: Option<string>) returns (r: Result<string, string>)
    ensures r == match Transcription(w, audio, language)
                 case Ok(pair) => Ok(pair.0)
                 case Err(e) => Err(e)
  {
    var full := TranscribeWithLanguage(w, audio, language);
    match full {
      case Ok(pair) => r := Ok(pair.0);
      case Err(e) => r := Err(e);
    }
  }

  /** The normaliser's dropped characters: whitespace and the punctuation 。、！!？? */
  predicate Dropped(c: char)
  {
    IsWhitespace(c) || c in "。、！!？?"
  }

  /** The text with every dropped character removed. */
  function Normalize(text: string): (r: string)
    ensures |r| <= |text|
    ensures forall i :: 0 <= i < |r| ==> !Dropped(r[i])
  {
    if text == [] then []
    else Normalize(text[..|text| - 1]) + (if Dropped(text[|text| - 1]) then [] else [text[|text| - 1]])
  }

  /** Normalising works piece by piece. */
  lemma {:induction false} NormalizeAppend(a: string, b: string)
    ensures Normalize(a + b) == Normalize(a) + Normalize(b)
  {
    if b != [] {
      NormalizeAppend(a, b[..|b| - 1]);
      assert (a + b)[..|a + b| - 1] == a + b[..|b| - 1];
    } else {
      assert a + b == a;
    }
  }

  /** Text without dropped characters is left as it is. */
  lemma {:induction false} NormalizeKeeps(text: string)
    requires forall i :: 0 <= i < |text| ==> !Dropped(text[i])
    ensures Normalize(text) == text
  {
    if text != [] {
      NormalizeKeeps(text[..|text| - 1]);
    }
  }

  /** A normalised text is its own normal form. */
  lemma {:induction false} NormalizeIdempotent(text: string)
    ensures Normalize(Normalize(text)) == Normalize(text)
  {
    if text != [] {
      var init, c := text[..|text| - 1], text[|text| - 1];
      NormalizeIdempotent(init);
      NormalizeAppend(Normalize(init), if Dropped(c) then [] else [c]);
    }
  }

  const KnownPhrases: seq<string> := [
    "お疲れ様でした",
    "おつかれさまでした",
    "ご視聴ありがとうございました",
    "ごしちょうありがとうございました"
  ]

  /** `is_likely_hallucination`, with the RMS test given as `lowEnergy`. */
  function IsLikelyHallucination(text: string, durationMs: U64, lowEnergy: bool): (r: bool)
    ensures !(durationMs < 1200 || lowEnergy) ==> !r
    ensures (durationMs < 1200 || lowEnergy) ==>
      (r <==> exists i :: 0 <= i < |KnownPhrases| && Contains(Normalize(text), KnownPhrases[i]))
  {
    var normalized := Normalize(text);
    var shortAudio := durationMs < 1200;
    if !(shortAudio || lowEnergy) then false
    else
      var found := Contains(normalized, KnownPhrases[0]) || Contains(normalized, KnownPhrases[1])
                   || Contains(normalized, KnownPhrases[2]) || Contains(normalized, KnownPhrases[3]);
      assert found ==> exists i :: 0 <= i < |KnownPhrases| && Contains(normalized, KnownPhrases[i]);
      found
  }

  /** Text without dropped characters survives normalisation, whatever droppable characters surround it. */
  lemma NormalizeAround(before: string, text: string, after: string)
    requires forall i :: 0 <= i < |before| ==> Dropped(before[i])
    requires forall i :: 0 <= i < |text| ==> !Dropped(text[i])
    requires forall i :: 0 <= i < |after| ==> Dropped(after[i])
    ensures Normalize(before + text + after) == text
  {
    calc {
      Normalize(before + text + after);
    ==  { NormalizeAppend(before + text, after); }
      Normalize(before + text) + Normalize(after);
    ==  { NormalizeDropsAll(after); }
      Normalize(before + text);
    ==  { NormalizeAppend(before, text); }
      Normalize(before) + Normalize(text);
    ==  { NormalizeDropsAll(before); NormalizeKeeps(text); }
      text;
    }
  }

  lemma {:induction false} NormalizeDropsAll(s: string)
    requires forall i :: 0 <= i < |s| ==> Dropped(s[i])
    ensures Normalize(s) == []
  {
    if s != [] {
      NormalizeDropsAll(s[..|s| - 1]);
    }
  }

  /** A farewell with trailing punctuation on a short clip is filtered; the same text on a long, loud clip is not. */
  lemma FarewellExamples()
    ensures IsLikelyHallucination("お疲れ様でした" + "。", 800, false)
    ensures !IsLikelyHallucination("お疲れ様でした" + "。", 5000, false)
  {
    NormalizeAround("", "お疲れ様でした", "。");
    assert "" + "お疲れ様でした" == "お疲れ様でした";
    assert KnownPhrases[0] <= Normalize("お疲れ様でした" + "。");
  }

  /** On a quiet clip a stock phrase is caught at any length, with surrounding space and punctuation. */
  lemma SpacedPhraseExample()
    ensures IsLikelyHallucination(" " + "ご視聴ありがとうございました" + "!", 5000, true)
  {
    NormalizeAround(" ", "ご視聴ありがとうございました", "!");
    assert KnownPhrases[2] <= Normalize(" " + "ご視聴ありがとうございました" + "!");
  }

  /** A text shorter than every phrase is never a hallucination. */
  lemma ShortTextNeverHallucination(text: string, durationMs: U64, lowEnergy: bool)
    requires |text| < 7
    ensures !IsLikelyHallucination(text, durationMs, lowEnergy)
  {
    if IsLikelyHallucination(text, durationMs, lowEnergy) {
      var i :| 0 <= i < |KnownPhrases| && Contains(Normalize(text), KnownPhrases[i]);
      ContainsLength(Normalize(text), KnownPhrases[i]);
    }
  }

  /** What `hound` reads from an artifact: its sample rate and each sample, or that sample's read error. */
  datatype WavData = WavData(sampleRate: nat, samples: seq<Result<i16, string>>)

  /** `filter_map(Result::ok)`: the samples that read cleanly, in order. */
  function ReadSamples(samples: seq<Result<i16, string>>): (r: seq<i16>)
    ensures |r| <= |samples|
  {
    if samples == [] then []
    else
      var last := samples[|samples| - 1];
      ReadSamples(samples[..|samples| - 1]) + (if last.Ok? then [last.value] else [])
  }

  /** The error `transcribe_wav_file` reports for a rate it does not handle. */
  function UnsupportedRate(rate: nat): string
  {
    "Unsupported sample rate: " + ToDecimal(rate)
  }

  /**
   * `transcribe_wav_file`: 48 kHz audio is decimated to 16 kHz, 16 kHz audio
   * is used as it is, any other rate is an error; the transcription always
   * runs with the Japanese hint.
   */
  method TranscribeWavFile(w: Whisper, wav: Result<WavData, string>) returns (r: Result<string, string>)
    ensures wav.Err? ==> r == Err(wav.error)
    ensures wav.Ok? && wav.value.sampleRate != 48000 && wav.value.sampleRate != 16000 ==>
      r == Err(UnsupportedRate(wav.value.sampleRate))
    ensures wav.Ok? && wav.value.sampleRate in {48000, 16000} ==>
      var samples := ReadSamples(wav.value.samples);
      var audio := if wav.value.sampleRate == 48000 then Downsample(samples) else samples;
      r == match Transcription(w, audio, Some("ja"))
           case Ok(pair) => Ok(pair.0)
           case Err(e) => Err(e)
  {
    if wav.Err? {
      return Err(wav.error);
    }
    var spec := wav.value;
    var samples := ReadSamples(spec.samples);
    var finalSamples: seq<i16>;
    if spec.sampleRate == 48000 {
      finalSamples := Downsample(samples);
    } else if spec.sampleRate == 16000 {
      finalSamples := samples;
    } else {
      return Err(UnsupportedRate(spec.sampleRate));
    }
    r := Transcribe(w, finalSamples, Some("ja"));
  }
}

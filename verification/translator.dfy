/**
 * The DeepL client's decision logic: which endpoint a key selects, how
 * user text is sanitised, how language names map to DeepL codes, and the
 * retry/backoff loop of `translate`.
 *
 * The HTTP exchange itself is not modelled: each attempt's outcome is an
 * input (`replies(attempt)`), and the sleeps the loop would take are
 * returned as a list of delays in milliseconds.
 */
module Translator {
  import opened Types
  import opened Text

  const FreeApiBase: string := "https://api-free.deepl.com"
  const ProApiBase: string := "https://api.deepl.com"

  /** A client: its key and the endpoint the key selects. */
  datatype Translator = Translator(apiKey: string, apiBase: string)

  /** `Translator::new`: keys ending in ":fx" (ignoring trailing whitespace) are free-tier keys. */
  function NewTranslator(apiKey: string): (t: Translator)
    ensures t.apiKey == apiKey
    ensures t.apiBase == FreeApiBase <==> EndsWith(TrimEnd(apiKey), ":fx")
    ensures t.apiBase == FreeApiBase || t.apiBase == ProApiBase
  {
    var apiBase := if EndsWith(TrimEnd(apiKey), ":fx") then FreeApiBase else ProApiBase;
    assert |FreeApiBase| != |ProApiBase|;
    Translator(apiKey, apiBase)
  }

  /** A free key, the same key with trailing whitespace, and a paid key. */
  lemma EndpointExamples()
    ensures NewTranslator("test:fx").apiBase == FreeApiBase
    ensures NewTranslator("test:fx" + " \n").apiBase == FreeApiBase
    ensures NewTranslator("test:fx" + "2").apiBase == ProApiBase
  {
    assert TrimEnd("test:fx") == "test:fx";
    TrimEndSpace("test:fx");
    assert ("test:fx" + " \n")[..8] == "test:fx" + " ";
    assert TrimEnd("test:fx" + " \n") == TrimEnd("test:fx" + " ");
    assert TrimEnd("test:fx" + "2") == "test:fx" + "2";
  }

  // ---------------------------------------------------------------- sanitising

  /** The characters `sanitize_input` lets through: anything but a control character, except newline and tab. */
  predicate Kept(c: char)
  {
    !IsControl(c) || c == '\n' || c == '\t'
  }

  /** The kept characters of `s`, in order. */
  function KeepAllowed(s: string): (r: string)
    ensures |r| <= |s|
  {
    if s == [] then [] else KeepAllowed(s[..|s| - 1]) + (if Kept(s[|s| - 1]) then [s[|s| - 1]] else [])
  }

  /** Only kept characters survive, and they all come from the input. */
  lemma {:induction false} KeepAllowedChars(s: string)
    ensures forall c :: c in KeepAllowed(s) ==> c in s && Kept(c)
  {
    if s != [] {
      KeepAllowedChars(s[..|s| - 1]);
      assert forall c :: c in s[..|s| - 1] ==> c in s;
    }
  }

  /** Text made only of kept characters passes unchanged. */
  lemma {:induction false} KeepAllowedKeepsAll(s: string)
    requires forall i :: 0 <= i < |s| ==> Kept(s[i])
    ensures KeepAllowed(s) == s
  {
    if s != [] {
      KeepAllowedKeepsAll(s[..|s| - 1]);
      assert s == s[..|s| - 1] + [s[|s| - 1]];
    }
  }

  lemma {:induction false} KeepAllowedAppend(a: string, b: string)
    ensures KeepAllowed(a + b) == KeepAllowed(a) + KeepAllowed(b)
  {
    if b != [] {
      KeepAllowedAppend(a, b[..|b| - 1]);
      assert (a + b)[..|a + b| - 1] == a + b[..|b| - 1];
    } else {
      assert a + b == a;
    }
  }

  /** `Iterator::take(n)`: the first `n` items, or all of them. */
  function Take(s: string, n: nat): (r: string)
    ensures |r| == if |s| <= n then |s| else n
    ensures r <= s
  {
    if |s| <= n then s else s[..n]
  }

  /** `str::replace` of one character by a string. */
  function ReplaceChar(s: string, c: char, replacement: string): string
  {
    if s == [] then []
    else ReplaceChar(s[..|s| - 1], c, replacement) + (if s[|s| - 1] == c then replacement else [s[|s| - 1]])
  }

  /** Every character of the result is an input character other than `c`, or comes from the replacement. */
  lemma {:induction false} ReplaceCharChars(s: string, c: char, replacement: string)
    ensures forall x :: x in ReplaceChar(s, c, replacement) ==> (x in s && x != c) || x in replacement
  {
    if s != [] {
      ReplaceCharChars(s[..|s| - 1], c, replacement);
      assert forall x :: x in s[..|s| - 1] ==> x in s;
    }
  }

  /** Text without `c` is left alone. */
  lemma {:induction false} ReplaceCharAbsent(s: string, c: char, replacement: string)
    requires c !in s
    ensures ReplaceChar(s, c, replacement) == s
  {
    if s != [] {
      ReplaceCharAbsent(s[..|s| - 1], c, replacement);
      assert s == s[..|s| - 1] + [s[|s| - 1]];
    }
  }

  lemma {:induction false} ReplaceCharAppend(a: string, b: string, c: char, replacement: string)
    ensures ReplaceChar(a + b, c, replacement) == ReplaceChar(a, c, replacement) + ReplaceChar(b, c, replacement)
  {
    if b != [] {
      ReplaceCharAppend(a, b[..|b| - 1], c, replacement);
      assert (a + b)[..|a + b| - 1] == a + b[..|b| - 1];
    } else {
      assert a + b == a;
    }
  }

  const MaxInputChars: nat := 2000

  /** Text that `sanitize_input` leaves alone when it is short enough. */
  predicate Clean(s: string)
  {
    forall i :: 0 <= i < |s| ==> Kept(s[i]) && s[i] != '<' && s[i] != '>'
  }

  /**
   * `sanitize_input`: drop control characters other than newline and tab,
   * keep the first 2000 remaining characters, then escape `<` and `>`.
   * The result holds no angle bracket and no dropped control character;
   * clean text is only cut to length.
   */
  function SanitizeInput(text: string): (r: string)
    ensures '<' !in r && '>' !in r
    ensures forall c :: c in r ==> Kept(c)
    ensures Clean(text) ==> r == Take(text, MaxInputChars)
  {
    var kept := Take(KeepAllowed(text), MaxInputChars);
    KeepAllowedChars(text);
    assert forall c :: c in kept ==> c in KeepAllowed(text);
    EscapedChars(kept);
    if Clean(text) then
      KeepAllowedKeepsAll(text);
      assert forall c :: c in kept ==> c in text;
      ReplaceCharAbsent(kept, '<', "&lt;");
      ReplaceCharAbsent(kept, '>', "&gt;");
      ReplaceChar(ReplaceChar(kept, '<', "&lt;"), '>', "&gt;")
    else
      ReplaceChar(ReplaceChar(kept, '<', "&lt;"), '>', "&gt;")
  }

  /** Escaping brackets in kept characters yields only kept characters and no bracket. */
  lemma EscapedChars(s: string)
    requires forall c :: c in s ==> Kept(c)
    ensures forall c :: c in ReplaceChar(ReplaceChar(s, '<', "&lt;"), '>', "&gt;") ==> Kept(c) && c != '<' && c != '>'
  {
    var lt, gt := "&lt;", "&gt;";
    assert forall c :: c in lt ==> c == '&' || c == 'l' || c == 't' || c == ';';
    assert forall c :: c in gt ==> c == '&' || c == 'g' || c == 't' || c == ';';
    var once := ReplaceChar(s, '<', lt);
    ReplaceCharChars(s, '<', lt);
    ReplaceCharChars(once, '>', gt);
  }

  /** Clean text between angle brackets comes back between `&lt;` and `&gt;`. */
  lemma SanitizeBracketed(text: string)
    requires Clean(text) && |text| + 2 <= MaxInputChars
    ensures SanitizeInput("<" + text + ">") == "&lt;" + text + "&gt;"
  {
    var tag := ['<'] + text + ['>'];
    assert "<" + text + ">" == tag;
    KeepAllowedAppend(['<'] + text, ['>']);
    KeepAllowedAppend(['<'], text);
    assert KeepAllowed(['<']) == ['<'] && KeepAllowed(['>']) == ['>'];
    KeepAllowedKeepsAll(text);
    assert KeepAllowed(tag) == tag;
    ReplaceBetween(text, '<', '>', "&lt;", "&gt;");
  }

  /** Replacing the two delimiters of a delimited text, one after the other. */
  lemma ReplaceBetween(text: string, open: char, close: char, openBy: string, closeBy: string)
    requires open != close && open !in text && close !in text && close !in openBy
    ensures ReplaceChar(ReplaceChar([open] + text + [close], open, openBy), close, closeBy) == openBy + text + closeBy
  {
    ReplaceCharAppend([open] + text, [close], open, openBy);
    ReplaceCharAppend([open], text, open, openBy);
    ReplaceCharAbsent(text, open, openBy);
    assert ReplaceChar([open], open, openBy) == openBy;
    assert ReplaceChar([close], open, openBy) == [close];
    ReplaceCharAppend(openBy + text, [close], close, closeBy);
    ReplaceCharAppend(openBy, text, close, closeBy);
    ReplaceCharAbsent(openBy, close, closeBy);
    ReplaceCharAbsent(text, close, closeBy);
    assert ReplaceChar([close], close, closeBy) == closeBy;
  }

  /** A dropped control character leaves no trace. */
  lemma SanitizeDropsControl(before: string, c: char, after: string)
    requires !Kept(c)
    ensures SanitizeInput(before + [c] + after) == SanitizeInput(before + after)
  {
    KeepAllowedAppend(before + [c], after);
    KeepAllowedAppend(before, [c]);
    KeepAllowedAppend(before, after);
    assert KeepAllowed([c]) == [];
    assert KeepAllowed(before) + [] == KeepAllowed(before);
  }

  /** The client's test: "<script>" is escaped. */
  lemma SanitizeTagExample()
    ensures SanitizeInput("<" + "script" + ">") == "&lt;" + "script" + "&gt;"
  {
    SanitizeBracketed("script");
  }

  /** The client's test "hello\0world", for any two lower-case words: the NUL between them is dropped. */
  lemma SanitizeControlExample(before: string, after: string)
    requires forall i :: 0 <= i < |before| ==> 'a' <= before[i] <= 'z'
    requires forall i :: 0 <= i < |after| ==> 'a' <= after[i] <= 'z'
    requires |before| + |after| <= MaxInputChars
    ensures SanitizeInput(before + "\0" + after) == before + after
  {
    SanitizeDropsControl(before, '\0', after);
    LettersClean(before);
    LettersClean(after);
    CleanAppend(before, after);
  }

  lemma LettersClean(s: string)
    requires forall i :: 0 <= i < |s| ==> 'a' <= s[i] <= 'z'
    ensures Clean(s)
  {
  }

  lemma CleanAppend(a: string, b: string)
    requires Clean(a) && Clean(b)
    ensures Clean(a + b)
  {
    assert forall i :: |a| <= i < |a + b| ==> (a + b)[i] == b[i - |a|];
  }

  /** 3000 letters are cut to 2000. */
  lemma SanitizeLengthExample()
    ensures |SanitizeInput(seq(3000, _ => 'a'))| == MaxInputChars
  {
    assert Clean(seq(3000, _ => 'a'));
  }

  // ------------------------------------------------------- language codes

  /** Rust's `char::to_lowercase` where it can yield ASCII: ASCII letters and the Kelvin sign. */
  function LowerChar(c: char): char
  {
    if 'A' <= c <= 'Z' then (c as int + 32) as char
    else if c == '\U{212A}' then 'k'
    else c
  }

  function Lowercase(s: string): (r: string)
    ensures |r| == |s|
    ensures forall i :: 0 <= i < |s| ==> r[i] == LowerChar(s[i])
  {
    if s == [] then [] else Lowercase(s[..|s| - 1]) + [LowerChar(s[|s| - 1])]
  }

  /** The codes DeepL is sent. */
  const DeepLCodes: set<string> := {"JA", "KO", "EN-US", "EN-GB"}

  /** The table of `map_language_code`, on a trimmed, lower-cased name. */
  function CodeFor(name: string): (code: Option<string>)
    ensures code.Some? ==> code.value in DeepLCodes
  {
    if name == "ja" || name == "japanese" || name == "jp" then Some("JA")
    else if name == "ko" || name == "korean" || name == "kr" then Some("KO")
    else if name == "en" || name == "english" || name == "en-us" || name == "en_us" then Some("EN-US")
    else if name == "en-gb" || name == "en_gb" then Some("EN-GB")
    else None
  }

  /**
   * `map_language_code`: the trimmed, lower-cased name looked up in the
   * fixed table; anything outside it is an error naming the input.
   */
  function MapLanguageCode(lang: string): (r: Result<string, string>)
    ensures r.Ok? ==> r.value in DeepLCodes
    ensures r.Err? ==> r.error == "Unsupported language code: " + lang
  {
    match CodeFor(Lowercase(Trim(lang)))
    case Some(code) => Ok(code)
    case None => Err("Unsupported language code: " + lang)
  }

  /** Surrounding whitespace and letter case do not matter: only the normalised name is looked up. */
  lemma MapLanguageCodeNormalises(a: string, b: string)
    requires Lowercase(Trim(a)) == Lowercase(Trim(b))
    ensures MapLanguageCode(a).Ok? == MapLanguageCode(b).Ok?
    ensures MapLanguageCode(a).Ok? ==> MapLanguageCode(a) == MapLanguageCode(b)
  {
  }

  /** A name with no surrounding whitespace is looked up by its letter-by-letter lower case. */
  lemma MapByLowercase(name: string, lower: string)
    requires name == [] || (!IsWhitespace(name[0]) && !IsWhitespace(name[|name| - 1]))
    requires |lower| == |name| && forall i :: 0 <= i < |name| ==> LowerChar(name[i]) == lower[i]
    ensures MapLanguageCode(name).Ok? <==> CodeFor(lower).Some?
    ensures CodeFor(lower).Some? ==> MapLanguageCode(name) == Ok(CodeFor(lower).value)
  {
    TrimOfTrimmed(name);
    assert Lowercase(name) == lower;
  }

  /** The names `map_language_code` accepts, with the code each maps to. */
  const LanguageNames: set<(string, string)> := {
    ("ja", "JA"), ("japanese", "JA"), ("jp", "JA"),
    ("ko", "KO"), ("korean", "KO"), ("kr", "KO"),
    ("en", "EN-US"), ("english", "EN-US"), ("en-us", "EN-US"), ("en_us", "EN-US"),
    ("en-gb", "EN-GB"), ("en_gb", "EN-GB")
  }

  /** Every name of the table, as written in it, maps to its code. */
  lemma MapLanguageCodeTable(name: string, code: string)
    requires (name, code) in LanguageNames
    ensures MapLanguageCode(name) == Ok(code)
  {
    assert CodeFor(name) == Some(code);
    MapByLowercase(name, name);
  }

  /** Every code the mapping produces maps to itself. */
  lemma MapLanguageCodeIdempotent(lang: string)
    requires MapLanguageCode(lang).Ok?
    ensures MapLanguageCode(MapLanguageCode(lang).value) == MapLanguageCode(lang)
  {
    CodeMapsToItself(MapLanguageCode(lang).value);
  }

  lemma CodeMapsToItself(code: string)
    requires code in DeepLCodes
    ensures MapLanguageCode(code) == Ok(code)
  {
    var lower: string;
    if code == "JA" {
      lower := "ja";
    } else if code == "KO" {
      lower := "ko";
    } else if code == "EN-US" {
      lower := "en-us";
    } else {
      lower := "en-gb";
    }
    assert CodeFor(lower) == Some(code);
    MapByLowercase(code, lower);
  }

  // ---------------------------------------------------------------- translate

  /**
   * What one request attempt yields: a transport failure, or a response
   * with its status, its body text and the `translations[].text` list the
   * body decodes to (None when it does not decode).
   */
  datatype Reply =
    | SendFailed(error: string)
    | Response(status: nat, body: string, decoded: Option<seq<string>>)

  datatype TranslateError =
    | UnsupportedLanguage(message: string)
    | RequestFailed(error: string)
    | QuotaExceeded
    | ApiError(status: nat, body: string)
    | DecodeFailed
    | NoTranslation

  const MaxAttempts: nat := 3

  predicate IsSuccess(status: nat)
  {
    200 <= status < 300
  }

  predicate Retryable(status: nat)
  {
    status in {429, 500, 502, 503, 504}
  }

  /** A reply worth another attempt: a transport failure or a retryable status. */
  predicate Transient(reply: Reply)
  {
    reply.SendFailed? || Retryable(reply.status)
  }

  /** After an attempt the loop either sleeps and retries or returns. */
  datatype Step = Retry | Done(result: Result<string, TranslateError>)

  /**
   * One attempt's decision: transient replies are retried except on the
   * last attempt; success yields the first translation trimmed; 456 is the
   * quota error; any other status is an API error.
   */
  function AttemptStep(attempt: nat, reply: Reply): (s: Step)
    ensures s.Retry? <==> attempt < MaxAttempts && Transient(reply)
    ensures reply.Response? && reply.status == 456 ==> s == Done(Err(QuotaExceeded))
    ensures s.Done? && s.result.Ok? ==> reply.Response? && IsSuccess(reply.status)
  {
    match reply
    case SendFailed(e) => if attempt < MaxAttempts then Retry else Done(Err(RequestFailed(e)))
    case Response(status, body, decoded) =>
      if IsSuccess(status) then
        match decoded
        case None => Done(Err(DecodeFailed))
        case Some(translations) =>
          if translations == [] then Done(Err(NoTranslation)) else Done(Ok(Trim(translations[0])))
      else if Retryable(status) && attempt < MaxAttempts then Retry
      else if status == 456 then Done(Err(QuotaExceeded))
      else Done(Err(ApiError(status, body)))
  }

  /** The outcome of `translate`: its result, how many requests it sent and the sleeps between them. */
  datatype Run = Run(result: Result<string, TranslateError>, attempts: nat, delays: seq<nat>)

  /**
   * The attempts from `attempt` on: every attempt before the last was
   * retried, the last one decided the result, and before attempt k + 1
   * the loop slept 200 * k ms.
   */
  function Retries(replies: nat -> Reply, attempt: nat): (run: Run)
    requires 1 <= attempt <= MaxAttempts
    ensures attempt <= run.attempts <= MaxAttempts
    ensures |run.delays| == run.attempts - attempt
    ensures forall i :: 0 <= i < |run.delays| ==> run.delays[i] == 200 * (attempt + i)
    ensures forall k :: attempt <= k < run.attempts ==> AttemptStep(k, replies(k)) == Retry
    ensures AttemptStep(run.attempts, replies(run.attempts)) == Done(run.result)
    decreases MaxAttempts - attempt
  {
    match AttemptStep(attempt, replies(attempt))
    case Done(result) => Run(result, attempt, [])
    case Retry =>
      var rest := Retries(replies, attempt + 1);
      Run(rest.result, rest.attempts, [200 * attempt] + rest.delays)
  }

  /**
   * `translate`: blank sanitised text is answered with "" before the
   * language names are even checked; an unknown name fails without a
   * request; otherwise up to three attempts are made.
   */
  function Translation(text: string, sourceLang: string, targetLang: string, replies: nat -> Reply): (run: Run)
    ensures IsBlank(SanitizeInput(text)) ==> run == Run(Ok(""), 0, [])
    ensures run.attempts <= MaxAttempts
    ensures run.attempts == 0 ==> run.delays == [] && (run.result.Ok? ==> run.result.value == "")
    ensures run.attempts == 0 && run.result.Err? ==>
      run.result.error.UnsupportedLanguage? && (MapLanguageCode(sourceLang).Err? || MapLanguageCode(targetLang).Err?)
  {
    var sanitized := SanitizeInput(text);
    if IsBlank(sanitized) then Run(Ok(""), 0, [])
    else match MapLanguageCode(sourceLang)
      case Err(e) => Run(Err(UnsupportedLanguage(e)), 0, [])
      case Ok(_) =>
        match MapLanguageCode(targetLang)
        case Err(e) => Run(Err(UnsupportedLanguage(e)), 0, [])
        case Ok(_) => Retries(replies, 1)
  }

  /**
   * Once both language names are accepted, no attempt's outcome blames the
   * language: `UnsupportedLanguage` only comes from the name check.
   */
  lemma AcceptedNamesNeverUnsupported(text: string, sourceLang: string, targetLang: string, replies: nat -> Reply)
    requires MapLanguageCode(sourceLang).Ok? && MapLanguageCode(targetLang).Ok?
    ensures var run := Translation(text, sourceLang, targetLang, replies);
      run.result.Err? ==> !run.result.error.UnsupportedLanguage?
  {
    var run := Translation(text, sourceLang, targetLang, replies);
    if !IsBlank(SanitizeInput(text)) {
      assert run == Retries(replies, 1);
      assert AttemptStep(run.attempts, replies(run.attempts)) == Done(run.result);
    }
  }

  /**
   * Non-blank text is checked against both language names first: a name that
   * does not map fails at once, blaming the first such name; once both map,
   * the text goes through the attempt loop from attempt 1.
   */
  lemma TranslationCases(text: string, sourceLang: string, targetLang: string, replies: nat -> Reply)
    ensures var run := Translation(text, sourceLang, targetLang, replies);
      !IsBlank(SanitizeInput(text)) && MapLanguageCode(sourceLang).Err? ==>
        run == Run(Err(UnsupportedLanguage(MapLanguageCode(sourceLang).error)), 0, [])
    ensures var run := Translation(text, sourceLang, targetLang, replies);
      !IsBlank(SanitizeInput(text)) && MapLanguageCode(sourceLang).Ok? && MapLanguageCode(targetLang).Err? ==>
        run == Run(Err(UnsupportedLanguage(MapLanguageCode(targetLang).error)), 0, [])
    ensures var run := Translation(text, sourceLang, targetLang, replies);
      !IsBlank(SanitizeInput(text)) && MapLanguageCode(sourceLang).Ok? && MapLanguageCode(targetLang).Ok? ==>
        run == Retries(replies, 1)
  {
  }

  /** The run `translate` makes once it has slept `delays` and reached `attempt`. */
  function Resumed(delays: seq<nat>, run: Run): Run
  {
    Run(run.result, run.attempts, delays + run.delays)
  }

  lemma RetriesUnfold(replies: nat -> Reply, attempt: nat, delays: seq<nat>)
    requires 1 <= attempt < MaxAttempts
    requires AttemptStep(attempt, replies(attempt)) == Retry
    ensures Resumed(delays, Retries(replies, attempt)) == Resumed(delays + [200 * attempt], Retries(replies, attempt + 1))
  {
    var rest := Retries(replies, attempt + 1);
    assert delays + ([200 * attempt] + rest.delays) == delays + [200 * attempt] + rest.delays;
  }

  /** `translate`'s `for attempt in 1..=3` loop with its early returns and sleeps. */
  method Translate(text: string, sourceLang: string, targetLang: string, replies: nat -> Reply)
    returns (r: Result<string, TranslateError>, attempts: nat, delays: seq<nat>)
    ensures Run(r, attempts, delays) == Translation(text, sourceLang, targetLang, replies)
  {
    var sanitized := SanitizeInput(text);
    if IsBlank(sanitized) {
      return Ok(""), 0, [];
    }
    var sourceCode := MapLanguageCode(sourceLang);
    if sourceCode.Err? {
      return Err(UnsupportedLanguage(sourceCode.error)), 0, [];
    }
    var targetCode := MapLanguageCode(targetLang);
    if targetCode.Err? {
      return Err(UnsupportedLanguage(targetCode.error)), 0, [];
    }
    delays := [];
    var attempt := 1;
    while true
      invariant 1 <= attempt <= MaxAttempts
      invariant Resumed(delays, Retries(replies, attempt)) == Translation(text, sourceLang, targetLang, replies)
      decreases MaxAttempts - attempt
    {
      var step := Attempt(attempt, replies(attempt));
      if step.Retry? {
        RetriesUnfold(replies, attempt, delays);
        delays := delays + [200 * attempt];
        attempt := attempt + 1;
        continue;
      }
      return step.result, attempt, delays;
    }
  }

  /** The body of one iteration of `translate`'s loop, from the reply to sleep-and-retry or return. */
  method Attempt(attempt: nat, reply: Reply) returns (step: Step)
    ensures step == AttemptStep(attempt, reply)
  {
    if reply.SendFailed? {
      if attempt < MaxAttempts {
        return Retry;
      }
      return Done(Err(RequestFailed(reply.error)));
    }
    if IsSuccess(reply.status) {
      if reply.decoded.None? {
        return Done(Err(DecodeFailed));
      }
      if reply.decoded.value != [] {
        return Done(Ok(Trim(reply.decoded.value[0])));
      }
      return Done(Err(NoTranslation));
    }
    if Retryable(reply.status) && attempt < MaxAttempts {
      return Retry;
    }
    if reply.status == 456 {
      return Done(Err(QuotaExceeded));
    }
    return Done(Err(ApiError(reply.status, reply.body)));
  }

  /** Two transient failures and then a translation: the text arrives after sleeping 200 and then 400 ms. */
  lemma TransientThenSuccess(replies: nat -> Reply, translations: seq<string>)
    requires Transient(replies(1)) && Transient(replies(2))
    requires replies(3) == Response(200, "", Some(translations)) && translations != []
    ensures Retries(replies, 1) == Run(Ok(Trim(translations[0])), 3, [200, 400])
  {
    var run := Retries(replies, 1);
    assert AttemptStep(1, replies(1)) == Retry;
    assert AttemptStep(2, replies(2)) == Retry;
    assert run.attempts == 3;
  }

  /** A quota error ends the loop at once, on any attempt. */
  lemma QuotaNotRetried(replies: nat -> Reply, body: string, decoded: Option<seq<string>>)
    requires replies(1) == Response(456, body, decoded)
    ensures Retries(replies, 1) == Run(Err(QuotaExceeded), 1, [])
  {
  }

  /** Three transient failures in a row: three requests, two sleeps, and an error. */
  lemma PersistentFailure(replies: nat -> Reply)
    requires Transient(replies(1)) && Transient(replies(2)) && Transient(replies(3))
    ensures Retries(replies, 1).attempts == 3
    ensures Retries(replies, 1).delays == [200, 400]
    ensures Retries(replies, 1).result.Err?
  {
    var run := Retries(replies, 1);
    assert AttemptStep(1, replies(1)) == Retry;
    assert AttemptStep(2, replies(2)) == Retry;
    assert run.attempts == 3;
  }

  /** Only transient replies are ever retried, and the sleeps grow by 200 ms per attempt. */
  lemma RetriesOnlyTransient(replies: nat -> Reply, k: nat)
    requires 1 <= k < Retries(replies, 1).attempts
    ensures Transient(replies(k))
    ensures Retries(replies, 1).delays[k - 1] == 200 * k
  {
  }

  // --------------------------------------------------- local language guess

  /** `Translator::detect_language_local`: the same character count as the transcriber's, named in English. */
  method DetectLanguageLocal(text: string) returns (lang: string)
    ensures lang == if MostlyJapanese(text) then "Japanese" else "English"
  {
    var hiraganaCount, katakanaCount, kanjiCount := CountJapanese(text);
    var totalChars := |text|;
    var japaneseChars := hiraganaCount + katakanaCount + kanjiCount;
    if totalChars > 0 && japaneseChars * 10 > totalChars {
      lang := "Japanese";
    } else {
      lang := "English";
    }
  }

  /** "こんにちは世界" is Japanese and "Hello World" is not. */
  lemma DetectLanguageExamples()
    ensures MostlyJapanese("こんにちは世界")
    ensures !MostlyJapanese("Hello World")
  {
    MostlyJapaneseBounds("こんにちは世界");
    MostlyJapaneseBounds("Hello World");
  }
}

/**
 * The parts of Rust's `str` API that the bot relies on, over Unicode
 * scalar values: `char::is_whitespace`, `char::is_control`, `trim`,
 * `split`, `join`, `contains` and `lines`.
 */
module Text {

  /** Rust's `char::is_whitespace`: the Unicode White_Space property. */
  predicate IsWhitespace(c: char)
  {
    var n := c as int;
    (9 <= n <= 13) || n == 32 || n == 0x85 || n == 0xA0 || n == 0x1680
    || (0x2000 <= n <= 0x200A) || n == 0x2028 || n == 0x2029 || n == 0x202F
    || n == 0x205F || n == 0x3000
  }

  /** Rust's `char::is_control`: general category Cc. */
  predicate IsControl(c: char)
  {
    var n := c as int;
    n <= 0x1F || (0x7F <= n <= 0x9F)
  }

  predicate AllWhitespace(s: string)
  {
    forall i :: 0 <= i < |s| ==> IsWhitespace(s[i])
  }

  /** `str::trim_start`. */
  function TrimStart(s: string): (r: string)
    ensures |r| <= |s| && r == s[|s| - |r|..]
    ensures r == [] || !IsWhitespace(r[0])
    ensures AllWhitespace(s[..|s| - |r|])
  {
    if |s| > 0 && IsWhitespace(s[0]) then
      var r := TrimStart(s[1..]);
      assert s[..|s| - |r|] == [s[0]] + s[1..][..|s| - 1 - |r|];
      r
    else s
  }

  /** `str::trim_end`. */
  function TrimEnd(s: string): (r: string)
    ensures |r| <= |s| && r == s[..|r|]
    ensures r == [] || !IsWhitespace(r[|r| - 1])
    ensures AllWhitespace(s[|r|..])
  {
    if |s| > 0 && IsWhitespace(s[|s| - 1]) then
      var r := TrimEnd(s[..|s| - 1]);
      assert s[|r|..] == s[..|s| - 1][|r|..] + [s[|s| - 1]];
      r
    else s
  }

  /** `str::trim`: no leading and no trailing whitespace; empty exactly for an all-whitespace string. */
  function Trim(s: string): (r: string)
    ensures |r| <= |s|
    ensures r == [] || (!IsWhitespace(r[0]) && !IsWhitespace(r[|r| - 1]))
    ensures r == [] <==> AllWhitespace(s)
  {
    var t := TrimStart(s);
    var r := TrimEnd(t);
    assert AllWhitespace(t[|r|..]);
    assert r == [] ==> t[|r|..] == t;
    assert t == [] ==> s[..|s|] == s;
    assert t != [] ==> !IsWhitespace(s[|s| - |t|]);
    r
  }

  /** `s.trim().is_empty()`: by `Trim`'s contract, exactly the all-whitespace strings. */
  predicate IsBlank(s: string)
  {
    AllWhitespace(s)
  }

  /** A string with no whitespace at either end is its own trim. */
  lemma TrimOfTrimmed(s: string)
    requires s == [] || (!IsWhitespace(s[0]) && !IsWhitespace(s[|s| - 1]))
    ensures Trim(s) == s
  {
  }

  /** `str::split(sep)` for a one-character separator. */
  function Split(s: string, sep: char): (parts: seq<string>)
    ensures |parts| >= 1
    ensures forall i :: 0 <= i < |parts| ==> sep !in parts[i]
  {
    if |s| == 0 then [""]
    else
      var rest := Split(s[1..], sep);
      if s[0] == sep then [""] + rest
      else [[s[0]] + rest[0]] + rest[1..]
  }

  /** A piece without the separator is not split. */
  lemma {:induction false} SplitNoSeparator(s: string, sep: char)
    requires sep !in s
    ensures Split(s, sep) == [s]
  {
    if |s| > 0 {
      SplitNoSeparator(s[1..], sep);
      assert [s[0]] + s[1..] == s;
    }
  }

  /** Splitting at a separator splits the two sides independently. */
  lemma {:induction false} SplitAppend(x: string, sep: char, y: string)
    ensures Split(x + [sep] + y, sep) == Split(x, sep) + Split(y, sep)
  {
    if |x| == 0 {
      assert x + [sep] + y == [sep] + y;
      assert ([sep] + y)[1..] == y;
    } else {
      assert (x + [sep] + y)[1..] == x[1..] + [sep] + y;
      SplitAppend(x[1..], sep, y);
    }
  }

  /** `parts.join(sep)`. */
  function Join(parts: seq<string>, sep: string): string
  {
    if |parts| == 0 then ""
    else if |parts| == 1 then parts[0]
    else parts[0] + sep + Join(parts[1..], sep)
  }

  /** Joining pieces that hold no separator and splitting again gives the pieces back. */
  lemma {:induction false} SplitJoin(parts: seq<string>, sep: char)
    requires |parts| >= 1
    requires forall i :: 0 <= i < |parts| ==> sep !in parts[i]
    ensures Split(Join(parts, [sep]), sep) == parts
  {
    if |parts| == 1 {
      SplitNoSeparator(parts[0], sep);
    } else {
      SplitJoin(parts[1..], sep);
      SplitNoSeparator(parts[0], sep);
      SplitAppend(parts[0], sep, Join(parts[1..], [sep]));
    }
  }

  /** `haystack.contains(needle)` for a string needle. */
  predicate Contains(haystack: string, needle: string)
    decreases |haystack|
  {
    needle <= haystack || (|haystack| > 0 && Contains(haystack[1..], needle))
  }

  /** `Contains` holds exactly when the needle occurs at some offset. */
  lemma ContainsIffOccurs(haystack: string, needle: string)
    ensures Contains(haystack, needle) <==>
      exists k :: 0 <= k <= |haystack| - |needle| && needle <= haystack[k..]
  {
    if Contains(haystack, needle) {
      var k := ContainsAt(haystack, needle);
    }
    if exists k :: 0 <= k <= |haystack| - |needle| && needle <= haystack[k..] {
      var k :| 0 <= k <= |haystack| - |needle| && needle <= haystack[k..];
      OccursContains(haystack, needle, k);
    }
  }

  /** An offset at which a contained needle occurs. */
  lemma {:induction false} ContainsAt(haystack: string, needle: string) returns (k: nat)
    requires Contains(haystack, needle)
    ensures k <= |haystack| - |needle| && needle <= haystack[k..]
    decreases |haystack|
  {
    if needle <= haystack {
      k := 0;
      assert haystack[0..] == haystack;
    } else {
      var j := ContainsAt(haystack[1..], needle);
      k := j + 1;
      assert haystack[1..][j..] == haystack[k..];
    }
  }

  /** A needle occurring at some offset is contained. */
  lemma {:induction false} OccursContains(haystack: string, needle: string, k: nat)
    requires k <= |haystack| - |needle| && needle <= haystack[k..]
    ensures Contains(haystack, needle)
    decreases k
  {
    if k == 0 {
      assert haystack[0..] == haystack;
    } else {
      assert haystack[1..][k - 1..] == haystack[k..];
      OccursContains(haystack[1..], needle, k - 1);
    }
  }

  /** A string contains nothing longer than itself. */
  lemma {:induction false} ContainsLength(haystack: string, needle: string)
    requires Contains(haystack, needle)
    ensures |needle| <= |haystack|
    decreases |haystack|
  {
    if !(needle <= haystack) {
      ContainsLength(haystack[1..], needle);
    }
  }

  /** Joining one more part appends the separator and that part. */
  lemma {:induction false} JoinSnoc(parts: seq<string>, sep: string, p: string)
    requires |parts| >= 1
    ensures Join(parts + [p], sep) == Join(parts, sep) + sep + p
  {
    if |parts| == 1 {
      assert (parts + [p])[1..] == [p];
    } else {
      assert (parts + [p])[1..] == parts[1..] + [p];
      JoinSnoc(parts[1..], sep, p);
    }
  }

  /** Index of the first occurrence of `c` in `s`. */
  function IndexOf(s: string, c: char): (i: nat)
    requires c in s
    ensures i < |s| && s[i] == c && c !in s[..i]
  {
    if s[0] == c then 0 else 1 + IndexOf(s[1..], c)
  }

  /** Drops one trailing carriage return. */
  function StripCarriageReturn(line: string): string
  {
    if |line| > 0 && line[|line| - 1] == '\r' then line[..|line| - 1] else line
  }

  /**
   * `str::lines`: split after every line feed, drop the line feed and a
   * carriage return right before it; a final line feed ends the last line
   * rather than starting an empty one.
   */
  function Lines(s: string): (ls: seq<string>)
    ensures forall i :: 0 <= i < |ls| ==> '\n' !in ls[i]
    decreases |s|
  {
    if s == [] then []
    else if '\n' !in s then [s]
    else
      var i := IndexOf(s, '\n');
      assert forall c :: c in StripCarriageReturn(s[..i]) ==> c in s[..i];
      [StripCarriageReturn(s[..i])] + Lines(s[i + 1..])
  }

  /** `s.ends_with(suffix)`. */
  predicate EndsWith(s: string, suffix: string)
  {
    |suffix| <= |s| && s[|s| - |suffix|..] == suffix
  }

  /** A trailing space does not change the trimmed string. */
  lemma TrimTrailingSpace(x: string)
    ensures Trim(x + " ") == Trim(x)
  {
    if AllWhitespace(x) {
      assert AllWhitespace(x + " ") by {
        assert forall i :: 0 <= i < |x + " "| ==> IsWhitespace((x + " ")[i]);
      }
    } else {
      TrimStartSnoc(x, ' ');
      TrimEndSpace(TrimStart(x));
    }
  }

  lemma TrimEndSpace(t: string)
    ensures TrimEnd(t + " ") == TrimEnd(t)
  {
    assert (t + " ")[..|t + " "| - 1] == t;
  }

  /** Trimming the front of a string with one more character at the end. */
  lemma {:induction false} TrimStartSnoc(x: string, c: char)
    ensures AllWhitespace(x) ==> TrimStart(x + [c]) == TrimStart([c])
    ensures !AllWhitespace(x) ==> TrimStart(x + [c]) == TrimStart(x) + [c]
  {
    if |x| > 0 {
      assert (x + [c])[1..] == x[1..] + [c];
      TrimStartSnoc(x[1..], c);
      if IsWhitespace(x[0]) {
        assert AllWhitespace(x) <==> AllWhitespace(x[1..]);
      }
    } else {
      assert x + [c] == [c];
    }
  }

  /** Hiragana: U+3040 to U+309F. */
  predicate IsHiragana(c: char)
  {
    0x3040 <= c as int <= 0x309F
  }

  /** Katakana: U+30A0 to U+30FF. */
  predicate IsKatakana(c: char)
  {
    0x30A0 <= c as int <= 0x30FF
  }

  /** CJK unified ideographs: U+4E00 to U+9FFF. */
  predicate IsKanji(c: char)
  {
    0x4E00 <= c as int <= 0x9FFF
  }

  predicate IsJapanese(c: char)
  {
    IsHiragana(c) || IsKatakana(c) || IsKanji(c)
  }

  /** The number of hiragana, katakana and kanji characters in `s`. */
  function JapaneseCount(s: string): (n: nat)
    ensures n <= |s|
  {
    if s == [] then 0 else JapaneseCount(s[..|s| - 1]) + (if IsJapanese(s[|s| - 1]) then 1 else 0)
  }

  /** A string made only of Japanese characters counts every character. */
  lemma {:induction false} AllJapaneseCount(s: string)
    requires forall i :: 0 <= i < |s| ==> IsJapanese(s[i])
    ensures JapaneseCount(s) == |s|
  {
    if s != [] {
      AllJapaneseCount(s[..|s| - 1]);
    }
  }

  /** A string without Japanese characters counts none. */
  lemma {:induction false} NoJapaneseCount(s: string)
    requires forall i :: 0 <= i < |s| ==> !IsJapanese(s[i])
    ensures JapaneseCount(s) == 0
  {
    if s != [] {
      NoJapaneseCount(s[..|s| - 1]);
    }
  }

  /** More than a tenth of a non-empty text is hiragana, katakana or kanji. */
  predicate MostlyJapanese(text: string)
  {
    |text| > 0 && 10 * JapaneseCount(text) > |text|
  }

  /** Empty text is never mostly Japanese; text made only of Japanese characters always is. */
  lemma MostlyJapaneseBounds(text: string)
    ensures text == [] ==> !MostlyJapanese(text)
    ensures text != [] && (forall i :: 0 <= i < |text| ==> IsJapanese(text[i])) ==> MostlyJapanese(text)
    ensures (forall i :: 0 <= i < |text| ==> !IsJapanese(text[i])) ==> !MostlyJapanese(text)
  {
    if forall i :: 0 <= i < |text| ==> IsJapanese(text[i]) {
      AllJapaneseCount(text);
    }
    if forall i :: 0 <= i < |text| ==> !IsJapanese(text[i]) {
      NoJapaneseCount(text);
    }
  }

  /**
   * The counting loop shared by both `detect_language_local`s: one pass
   * over the characters, bumping the hiragana, the katakana or the kanji
   * counter; together they count the Japanese characters.
   */
  method CountJapanese(text: string) returns (hiragana: nat, katakana: nat, kanji: nat)
    ensures hiragana + katakana + kanji == JapaneseCount(text)
  {
    hiragana, katakana, kanji := 0, 0, 0;
    for i := 0 to |text|
      invariant hiragana + katakana + kanji == JapaneseCount(text[..i])
    {
      var c := text[i];
      if IsHiragana(c) {
        hiragana := hiragana + 1;
      } else if IsKatakana(c) {
        katakana := katakana + 1;
      } else if IsKanji(c) {
        kanji := kanji + 1;
      }
      assert text[..i + 1][..i] == text[..i];
    }
    assert text[..|text|] == text;
  }
}

/** `SearchParams.parseLocale`: the locale of a search request, read from
    the front of its `<locale>` text by the pattern
    `([a-zA-Z]{2})(?:[-_]([a-zA-Z]{2})([-_](.+))?)?` with `lookingAt`, so
    text after the longest match is ignored. */
module LocaleParsing {
  import opened Wrappers
  import opened JavaStrings

  /** `java.util.Locale` without script or extensions. */
  datatype Locale = Locale(language: string, country: string, variant: string)

  /** The `Locale` constructors: the language is lower-cased, the country
      upper-cased, the variant kept as given. */
  function NewLocale(language: string, country: string, variant: string): Locale
  {
    Locale(ToLower(language), ToUpper(country), variant)
  }

  predicate IsSeparator(c: char) { c == '-' || c == '_' }

  /** The characters that `.` does not match. */
  predicate IsLineTerminator(c: char)
  {
    c == '\n' || c == '\r' || c == '\U{85}' || c == '\U{2028}' || c == '\U{2029}'
  }

  /** How far the greedy `.+` reaches: up to the first line terminator. */
  function LineRun(s: string): (r: nat)
    ensures r <= |s|
    ensures forall k :: 0 <= k < r ==> !IsLineTerminator(s[k])
    ensures r == |s| || IsLineTerminator(s[r])
  {
    if |s| == 0 || IsLineTerminator(s[0]) then 0 else 1 + LineRun(s[1..])
  }

  function ParseLocale(src: Option<string>): (r: Option<Locale>)
    ensures src.None? || src == Some("") ==> r.None?
    ensures r.Some? <==>
      src.Some? && |src.value| >= 2 && IsAsciiLetter(src.value[0]) && IsAsciiLetter(src.value[1])
    ensures r.Some? ==> r.value.language == ToLower(src.value[..2])
    ensures r.Some? && r.value.country != "" ==>
      && |src.value| >= 5 && IsSeparator(src.value[2])
      && IsAsciiLetter(src.value[3]) && IsAsciiLetter(src.value[4])
      && r.value.country == ToUpper(src.value[3..5])
    ensures r.Some? && r.value.variant != "" ==>
      && |src.value| >= 7 && r.value.country != "" && IsSeparator(src.value[5])
      && !IsLineTerminator(src.value[6]) && r.value.variant <= src.value[6..]
    ensures (r.Some? && |src.value| >= 5 && IsSeparator(src.value[2])
             && IsAsciiLetter(src.value[3]) && IsAsciiLetter(src.value[4])) ==>
      r.value.country == ToUpper(src.value[3..5])
    ensures (r.Some? && r.value.country != "" && |src.value| >= 7
             && IsSeparator(src.value[5]) && !IsLineTerminator(src.value[6])) ==>
      r.value.variant == src.value[6..6 + LineRun(src.value[6..])]
  {
    if src.None? || |src.value| == 0 then None
    else
      var s := src.value;
      if !(|s| >= 2 && IsAsciiLetter(s[0]) && IsAsciiLetter(s[1])) then None
      else if !(|s| >= 5 && IsSeparator(s[2]) && IsAsciiLetter(s[3]) && IsAsciiLetter(s[4])) then
        Some(NewLocale(s[..2], "", ""))
      else if !(|s| >= 7 && IsSeparator(s[5]) && !IsLineTerminator(s[6])) then
        Some(NewLocale(s[..2], s[3..5], ""))
      else
        Some(NewLocale(s[..2], s[3..5], s[6..6 + LineRun(s[6..])]))
  }

  /** `Locale.toString()` for a locale without script or extensions. */
  function LocaleToString(l: Locale): string
  {
    var hasLanguage := l.language != "";
    var hasCountry := l.country != "";
    var hasVariant := l.variant != "";
    l.language
      + (if hasCountry || (hasLanguage && hasVariant) then "_" + l.country else "")
      + (if hasVariant && (hasLanguage || hasCountry) then "_" + l.variant else "")
  }

  /** The locales `parseLocale` can produce and `toString` writes back
      unambiguously: a two-letter lower-case language, an optional two-letter
      upper-case country, and a variant only after a country. */
  predicate WellFormed(l: Locale)
  {
    && |l.language| == 2 && IsAsciiLower(l.language[0]) && IsAsciiLower(l.language[1])
    && (l.country == "" || (|l.country| == 2 && IsAsciiUpper(l.country[0]) && IsAsciiUpper(l.country[1])))
    && (l.variant != "" ==> l.country != "")
    && (forall k :: 0 <= k < |l.variant| ==> !IsLineTerminator(l.variant[k]))
  }

  /** Every locale `parseLocale` yields has the shape `WellFormed` describes,
      so `LocaleRoundTrip` covers all of them. */
  lemma ParsedIsWellFormed(src: Option<string>)
    ensures ParseLocale(src).Some? ==> WellFormed(ParseLocale(src).value)
  {
    var r := ParseLocale(src);
    if r.Some? {
      var s := src.value;
      LetterLowerUpper(s[0]);
      LetterLowerUpper(s[1]);
      if r.value.country != "" {
        LetterLowerUpper(s[3]);
        LetterLowerUpper(s[4]);
      }
      if r.value.variant != "" {
        var tail := s[6..];
        assert r.value.variant == tail[..LineRun(tail)];
      }
    }
  }

  /** Lower-casing a letter gives a lower-case letter, upper-casing it an
      upper-case letter. */
  lemma LetterLowerUpper(c: char)
    requires IsAsciiLetter(c)
    ensures IsAsciiLower(LowerChar(c)) && IsAsciiUpper(UpperChar(c))
  {
  }

  /** A language alone, followed by text that is not a separator. */
  lemma ParseLanguageOnly(l: Locale, rest: string)
    requires WellFormed(l) && l.country == ""
    requires |rest| == 0 || !IsSeparator(rest[0])
    ensures ParseLocale(Some(LocaleToString(l) + rest)) == Some(l)
  {
    var s := LocaleToString(l) + rest;
    assert s == l.language + rest;
    assert s[..2] == l.language;
    ToLowerOfLower(l.language);
  }

  /** Language and country, followed by text that is not a separator. */
  lemma ParseLanguageCountry(l: Locale, rest: string)
    requires WellFormed(l) && l.country != "" && l.variant == ""
    requires |rest| == 0 || !IsSeparator(rest[0])
    ensures ParseLocale(Some(LocaleToString(l) + rest)) == Some(l)
  {
    var s := LocaleToString(l) + rest;
    assert s == l.language + "_" + l.country + rest;
    assert s[..2] == l.language;
    assert s[3..5] == l.country;
    ToLowerOfLower(l.language);
    ToUpperOfUpper(l.country);
  }

  /** Language, country and variant, followed by nothing or a new line. */
  lemma ParseLanguageCountryVariant(l: Locale, rest: string)
    requires WellFormed(l) && l.variant != ""
    requires |rest| == 0 || IsLineTerminator(rest[0])
    ensures ParseLocale(Some(LocaleToString(l) + rest)) == Some(l)
  {
    var s := LocaleToString(l) + rest;
    assert s == l.language + "_" + l.country + "_" + l.variant + rest;
    assert s[..2] == l.language;
    assert s[3..5] == l.country;
    ToLowerOfLower(l.language);
    ToUpperOfUpper(l.country);
    var tail := s[6..];
    assert tail == l.variant + rest;
    LineRunStops(l.variant, rest);
    assert tail[..|l.variant|] == l.variant;
  }

  /** `.+` runs over a line up to the line terminator that follows it. */
  lemma {:induction false} LineRunStops(line: string, rest: string)
    requires forall k :: 0 <= k < |line| ==> !IsLineTerminator(line[k])
    requires |rest| == 0 || IsLineTerminator(rest[0])
    ensures LineRun(line + rest) == |line|
    decreases |line|
  {
    if |line| > 0 {
      assert (line + rest)[1..] == line[1..] + rest;
      LineRunStops(line[1..], rest);
    } else {
      assert line + rest == rest;
    }
  }

  /** Matching is prefix-only: text after a written locale is ignored when
      it cannot extend the match (it does not start with a separator, or,
      after a variant, it starts a new line). */
  lemma ParseIgnoresTrailingText(l: Locale, rest: string)
    requires WellFormed(l)
    requires |rest| == 0
      || (l.variant == "" && !IsSeparator(rest[0]))
      || (l.variant != "" && IsLineTerminator(rest[0]))
    ensures ParseLocale(Some(LocaleToString(l) + rest)) == Some(l)
  {
    if l.country == "" {
      ParseLanguageOnly(l, rest);
    } else if l.variant == "" {
      ParseLanguageCountry(l, rest);
    } else {
      ParseLanguageCountryVariant(l, rest);
    }
  }

  /** What `encodeParams` writes (`toString`) `parse` reads back. */
  lemma LocaleRoundTrip(l: Locale)
    requires WellFormed(l)
    ensures ParseLocale(Some(LocaleToString(l))) == Some(l)
  {
    ParseIgnoresTrailingText(l, "");
    assert LocaleToString(l) + "" == LocaleToString(l);
  }
}

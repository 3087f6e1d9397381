/**
 Quoting a string and reading it back: the scanning loop, the naive replacement of escaped quotes
 and the final unescaping compose to the identity (crates/filter-parser/src/value.rs).
 */
module FilterQuoting {
  import opened FilterSyntax
  import opened FilterLexer

  predicate IsQuote(c: char) {
    c == '\'' || c == '"'
  }

  function EscapeChar(quote: char, c: char): string {
    if c == '\\' || c == quote then ['\\', c] else [c]
  }

  /** What a user writes between quotes: backslashes doubled, the quote escaped. */
  function Escape(quote: char, s: string): string {
    if s == "" then "" else EscapeChar(quote, s[0]) + Escape(quote, s[1..])
  }

  function Quote(quote: char, s: string): (r: string)
    ensures |r| >= 2 && r[0] == quote
  {
    [quote] + Escape(quote, s) + [quote]
  }

  lemma ScanOne(quote: char, c: char, more: string)
    requires quote != '\\'
    ensures ScanQuoted(quote, EscapeChar(quote, c) + more) ==
            ScanQuoted(quote, more).Shift(|EscapeChar(quote, c)|, c == quote)
  {
  }

  lemma EscapeStep(quote: char, s: string, tail: string)
    requires s != ""
    ensures Escape(quote, s) + tail == EscapeChar(quote, s[0]) + (Escape(quote, s[1..]) + tail)
    ensures |Escape(quote, s)| == |EscapeChar(quote, s[0])| + |Escape(quote, s[1..])|
    ensures quote in s <==> s[0] == quote || quote in s[1..]
  {
    hide EscapeChar;
  }

  /** The scan passes over the escaped text exactly, and notices whether a quote was escaped. */
  lemma {:induction false} ScanEscaped(quote: char, s: string, tail: string)
    requires quote != '\\'
    requires tail == "" || tail[0] == quote
    ensures ScanQuoted(quote, Escape(quote, s) + tail) == Closed(|Escape(quote, s)|, quote in s)
  {
    if s == "" {
      assert Escape(quote, s) + tail == tail;
    } else {
      hide ScanQuoted, Escape, EscapeChar;
      EscapeStep(quote, s, tail);
      ScanOne(quote, s[0], Escape(quote, s[1..]) + tail);
      ScanEscaped(quote, s[1..], tail);
    }
  }

  lemma UnescapeOne(quote: char, c: char, t: string)
    requires quote != '\\'
    requires t == "" || t[0] != quote
    ensures UnescapeQuote(EscapeChar(quote, c) + t, quote) == DoubleBackslash(c) + UnescapeQuote(t, quote)
  {
  }

  lemma EscapeNeverStartsWithQuote(quote: char, s: string)
    requires quote != '\\'
    ensures Escape(quote, s) == "" || Escape(quote, s)[0] != quote
  {
  }

  /** The naive replacement removes exactly the backslashes that protect a quote. */
  lemma {:induction false} UnescapeQuoteOfEscape(quote: char, s: string)
    requires quote != '\\'
    ensures UnescapeQuote(Escape(quote, s), quote) == DoubleBackslashes(s)
  {
    hide UnescapeQuote, EscapeChar, DoubleBackslash;
    if s == "" {
      assert UnescapeQuote("", quote) == "" by { UnescapeNothing(quote); }
    } else {
      UnescapeQuoteOfEscape(quote, s[1..]);
      EscapeNeverStartsWithQuote(quote, s[1..]);
      UnescapeOne(quote, s[0], Escape(quote, s[1..]));
    }
  }

  lemma UnescapeNothing(quote: char)
    ensures UnescapeQuote("", quote) == ""
  {
  }

  lemma {:induction false} EscapeWithoutQuote(quote: char, s: string)
    requires quote !in s
    ensures Escape(quote, s) == DoubleBackslashes(s)
  {
    if s != "" {
      EscapeWithoutQuote(quote, s[1..]);
    }
  }

  lemma {:induction false} DoubledLength(s: string)
    ensures |DoubleBackslashes(s)| >= |s|
    ensures |DoubleBackslashes(s)| == |s| ==> DoubleBackslashes(s) == s
  {
    if s != "" {
      DoubledLength(s[1..]);
    }
  }

  lemma QuoteIsNotGeo(env: Env, s: string)
    requires env.Valid()
    requires s != "" && IsQuote(s[0])
    ensures SkipMultispace(s) == s
    ensures !MisusedGeo(env, s)
    ensures ParseGeoRadius(env, s).Error? && ParseGeoBoundingBox(env, s).Error?
    ensures WordLength(env, s) == 0
  {
    assert s[0] !in env.alnum;
  }

  /** What lies between the quotes is the string with its backslashes doubled. */
  lemma QuotedByEscaped(quote: char, s: string, rest: string)
    requires quote != '\\'
    ensures QuotedBy(quote, Escape(quote, s) + [quote] + rest) == Ok([quote] + rest, DoubleBackslashes(s))
  {
    var e := Escape(quote, s);
    var text := e + [quote] + rest;
    assert text == e + ([quote] + rest);
    ScanEscaped(quote, s, [quote] + rest);
    assert text[|e|..] == [quote] + rest;
    assert text[..|e|] == e;
    if quote in s {
      UnescapeQuoteOfEscape(quote, s);
    } else {
      EscapeWithoutQuote(quote, s);
    }
  }

  lemma RawValueOfQuote(env: Env, quote: char, s: string, rest: string)
    requires IsQuote(quote)
    ensures RawValue(env, Quote(quote, s) + rest) == Ok(rest, DoubleBackslashes(s))
  {
    hide ScanQuoted, UnescapeQuote, QuotedBy, Escape, DoubleBackslashes, WordNotKeyword;
    var input := Quote(quote, s) + rest;
    assert input[0] == quote;
    assert input[1..] == Escape(quote, s) + [quote] + rest;
    QuotedByEscaped(quote, s, rest);
    assert ([quote] + rest)[1..] == rest;
  }

  /**
   Quoted value round trip: for every string and either quote, the quoted form is read back as
   the same string, and only the spaces that follow the closing quote are taken with it.
   */
  lemma QuotedValueRoundTrip(env: Env, quote: char, s: string, rest: string)
    requires env.Valid()
    requires IsQuote(quote)
    ensures ParseValue(env, Quote(quote, s) + rest) == Ok(SkipMultispace(rest), s)
  {
    hide RawValue, MisusedGeo, DoubleBackslashes, Quote;
    var input := Quote(quote, s) + rest;
    QuoteIsNotGeo(env, input);
    assert SkipWhitespace(input) == input;
    RawValueOfQuote(env, quote, s, rest);
    DoubledLength(s);
    assert env.unescape(DoubleBackslashes(s)) == Unescaped(s);
  }

  /** Without the closing quote the same text is a final error. */
  lemma UnclosedQuote(env: Env, quote: char, s: string)
    requires env.Valid() && IsQuote(quote)
    ensures ParseValue(env, [quote] + Escape(quote, s)) == Failure(OtherKind)
  {
    var e := Escape(quote, s);
    var input := [quote] + e;
    hide Escape, UnescapeQuote, ScanQuoted, MisusedGeo;
    QuoteIsNotGeo(env, input);
    assert SkipWhitespace(input) == input;
    assert e + "" == e;
    ScanEscaped(quote, s, "");
    assert e[|e|..] == "";
    assert input[1..] == e;
  }

  /** The assumptions made of the environment can be met. */
  lemma ValidEnvironmentExists() returns (env: Env)
    ensures env.Valid()
  {
    var alnum := set c: char | '0' <= c <= 'z' && IsAsciiAlphanumeric(c);
    env := Env(alnum, (s: string) => Unescaped(HalveBackslashes(s)));
    forall s: string ensures env.unescape(DoubleBackslashes(s)) == Unescaped(s) {
      HalveOfDouble(s);
    }
  }

  function HalveBackslashes(s: string): string {
    if |s| >= 2 && s[0] == '\\' && s[1] == '\\' then ['\\'] + HalveBackslashes(s[2..])
    else if s == "" then ""
    else [s[0]] + HalveBackslashes(s[1..])
  }

  lemma {:induction false} HalveOfDouble(s: string)
    ensures HalveBackslashes(DoubleBackslashes(s)) == s
  {
    if s != "" {
      HalveOfDouble(s[1..]);
      if s[0] == '\\' {
        assert DoubleBackslashes(s)[2..] == DoubleBackslashes(s[1..]);
      } else {
        assert DoubleBackslashes(s)[1..] == DoubleBackslashes(s[1..]);
      }
    }
  }
}

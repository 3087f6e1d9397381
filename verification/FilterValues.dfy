/**
 Values as they may be written (crates/filter-parser/src/value.rs): any text between quotes, and any
 bare word; and bare words inside a condition (crates/filter-parser/src/condition.rs), where after the
 field a word may be taken for an operator.
 */
module FilterValues {
  import opened FilterSyntax
  import opened FilterLexer
  import opened FilterQuoting
  import opened FilterGrammar
  import opened FilterGeo
  import opened FilterParser
  import opened FilterPrinter

  // ---------- Between quotes ----------

  /** Whether a quote is escaped in the text. */
  predicate EscapesQuote(quote: char, body: string) {
    |body| >= 2 && if body[0] == '\\' then body[1] == quote || EscapesQuote(quote, body[2..])
                   else EscapesQuote(quote, body[1..])
  }

  lemma {:induction false} ScanBody(quote: char, body: string, rest: string)
    requires quote != '\\' && BodyOk(quote, body) && (rest == "" || rest[0] == quote)
    ensures ScanQuoted(quote, body + rest) == Closed(|body|, EscapesQuote(quote, body))
  {
    var s := body + rest;
    if body == "" {
      assert s == rest;
    } else if body[0] == '\\' {
      assert s[2..] == body[2..] + rest;
      ScanBody(quote, body[2..], rest);
    } else {
      assert s[1..] == body[1..] + rest;
      ScanBody(quote, body[1..], rest);
    }
  }

  lemma {:induction false} NothingToReplace(quote: char, body: string)
    requires quote != '\\' && BodyOk(quote, body) && !EscapesQuote(quote, body)
    ensures UnescapeQuote(body, quote) == body && (body != "" ==> body[0] != quote)
  {
    if body != "" {
      if body[0] == '\\' {
        NothingToReplace(quote, body[2..]);
        assert body == [body[0]] + ([body[1]] + body[2..]);
        assert body[1..] == [body[1]] + body[2..] && body[1..][1..] == body[2..];
      } else {
        NothingToReplace(quote, body[1..]);
        assert body == [body[0]] + body[1..];
      }
    }
  }

  lemma QuotedBody(quote: char, body: string, rest: string)
    requires IsQuote(quote) && BodyOk(quote, body)
    ensures QuotedValue(quote, body + ([quote] + rest)) == Ok(rest, UnescapeQuote(body, quote))
  {
    var s := body + ([quote] + rest);
    ScanBody(quote, body, [quote] + rest);
    if !EscapesQuote(quote, body) {
      NothingToReplace(quote, body);
    }
    hide ScanQuoted, UnescapeQuote, BodyOk, EscapesQuote;
    assert s[|body|..] == [quote] + rest && s[..|body|] == body;
  }

  /**
   Any text between quotes, after any spaces: it is a value exactly if it can be unescaped, and what
   cannot be unescaped decides between an incomplete input and an error.
   */
  lemma QuotedBodyIff(env: Env, sp: string, quote: char, body: string, rest: string)
    requires env.Valid() && IsSpaces(sp) && IsQuote(quote) && BodyOk(quote, body)
    ensures var raw := UnescapeQuote(body, quote);
            ParseValue(env, sp + ([quote] + (body + ([quote] + rest)))) ==
            match env.unescape(raw)
            case Unescaped(content) => Ok(SkipMultispace(rest), if |content| != |raw| then content else raw)
            case IncompleteStr => Incomplete
            case BadNumber => Error(OtherKind)
            case BadChar => Error(OtherKind)
  {
    var s := [quote] + (body + ([quote] + rest));
    assert s[0] == quote && s[1..] == body + ([quote] + rest);
    QuotedBody(quote, body, rest);
    assert RawValue(env, s) == Ok(rest, UnescapeQuote(body, quote));
    QuoteIsNotGeo(env, s);
    assert SkipWhitespace(s) == s;
    hide RawValue, MisusedGeo, UnescapeQuote, BodyOk, SkipWhitespace;
    ValueAfterSpaces(env, sp, s);
  }

  // ---------- Bare words ----------

  /** A tag made of word characters that a text starts with is part of its first word. */
  lemma PrefixOfWord(env: Env, tag: string, w: string, t: string)
    requires IsWord(env, tag) && EndsWord(env, t)
    ensures tag <= w + t <==> tag <= w
  {
    var s := w + t;
    if tag <= s && tag != w {
      FirstWordGoesOn(env, tag, w, t);
      assert tag == s[..|tag|] == w[..|tag|];
    }
    if tag <= w {
      assert tag == w[..|tag|] == s[..|tag|];
    }
  }

  lemma GeoTags(env: Env)
    requires env.Valid()
    ensures IsWord(env, "_geoPoint") && IsWord(env, "_geoDistance")
  {
    forall c: char | IsAsciiAlphanumeric(c) ensures c in env.alnum {
      assert c as int < 128;
    }
  }

  /** Exactly the reserved geo words are misused geo expressions. */
  lemma WordIsMisusedIff(env: Env, w: string, t: string)
    requires env.Valid() && w != "" && IsWord(env, w) && EndsWord(env, t)
    ensures MisusedGeo(env, w + t) <==>
            w in ["_geo", "_geoRadius", "_geoBoundingBox"] || "_geoPoint" <= w || "_geoDistance" <= w
  {
    hide FloatList, PointList, WordLength, IsWord, EndsWord;
    var s := w + t;
    assert s[0] == w[0];
    assert !IsMultispace(s[0]) by { FirstCharacter(env, w); }
    SkipNothing(s);
    WordEndsAt(env, w, t);
    GeoTags(env);
    PrefixOfWord(env, "_geoPoint", w, t);
    PrefixOfWord(env, "_geoDistance", w, t);
    hide SkipMultispace;
    assert forall tag :: WordExact(env, tag, s) == if tag == w then Ok(t, ()) else Error(OtherKind);
  }

  lemma FirstCharacter(env: Env, w: string)
    requires env.Valid() && w != "" && IsWord(env, w)
    ensures !IsMultispace(w[0]) && !IsWhitespace(w[0]) && !IsQuote(w[0])
  {
    WordCharacter(env, w[0]);
  }

  /** Every bare word, whatever ends it, is read back as it is, exactly if it is not reserved. */
  lemma BareWordIff(env: Env, w: string, t: string)
    requires env.Valid() && w != "" && IsWord(env, w) && EndsWord(env, t)
    ensures if IsReserved(w) then !ParseValue(env, w + t).Ok? else ParseValue(env, w + t) == Ok(SkipMultispace(t), w)
  {
    if w[0] != '_' {
      hide ParseValue, IsReserved;
      BareValueIff(env, w, t);
    } else {
      GeoWordIff(env, w, t);
    }
  }

  lemma UnderscoreKeywords(w: string)
    requires w != "" && w[0] == '_'
    ensures w in KEYWORDS <==> w in ["_geoRadius", "_geoBoundingBox"]
    ensures IsReserved(w) <==>
            w in ["_geo", "_geoRadius", "_geoBoundingBox"] || "_geoPoint" <= w || "_geoDistance" <= w
  {
    assert KEYWORDS[12..] == ["_geoRadius", "_geoBoundingBox"] && KEYWORDS == KEYWORDS[..12] + KEYWORDS[12..];
    assert forall i :: 0 <= i < 12 ==> KEYWORDS[..12][i] == KEYWORDS[i] && KEYWORDS[i][0] != '_';
  }

  lemma GeoWordIff(env: Env, w: string, t: string)
    requires env.Valid() && w != "" && w[0] == '_' && IsWord(env, w) && EndsWord(env, t)
    ensures if IsReserved(w) then !ParseValue(env, w + t).Ok? else ParseValue(env, w + t) == Ok(SkipMultispace(t), w)
  {
    UnderscoreKeywords(w);
    WordIsMisusedIff(env, w, t);
    WordEndsAt(env, w, t);
    forall i | 0 <= i < |w| ensures w[i] != '\\' {
      WordCharacter(env, w[i]);
    }
    NothingToUnescape(w);
    hide MisusedGeo, WordLength, KEYWORDS, IsReserved, IsWord, EndsWord;
    var s := w + t;
    assert s[0] == '_' && SkipWhitespace(s) == s;
    assert env.unescape(DoubleBackslashes(w)) == Unescaped(w);
    hide SkipMultispace, SkipWhitespace;
  }

  /** A value that can be written without quotes. */
  predicate IsBare(env: Env, w: string) {
    w != "" && IsWord(env, w) && w[0] != '_' && !IsReserved(w)
  }

  lemma KeywordsAreNotBare(env: Env, w: string)
    requires IsBare(env, w)
    ensures w != "IN" && w != "NOT" && w != "IS" && w != "EXISTS"
  {
  }

  lemma OperatorsAreNotWords(env: Env, c: char)
    requires env.Valid() && IsBareChar(env, c)
    ensures c !in {'<', '>', '!', '='} && !IsMultispace(c)
  {
    WordCharacter(env, c);
    assert c as int < 128 ==> (c in env.alnum <==> IsAsciiAlphanumeric(c));
  }

  lemma BareWordExact(env: Env, w: string, t: string, tag: string)
    requires IsWord(env, w) && EndsWord(env, t) && tag != w
    ensures WordExact(env, tag, w + t).Error?
  {
    WordEndsAt(env, w, t);
    hide WordLength;
  }

  /** A word that goes on is not the first word of a phrase. */
  lemma NotFirstWord(env: Env, first: string, more: seq<string>, w: string, t: string)
    requires env.Valid() && IsWord(env, w) && EndsWord(env, t) && IsWord(env, first) && first != w && more != []
    ensures Tags([first] + more, w + t).Error?
  {
    var s, tags := w + t, [first] + more;
    assert tags[0] == first && tags[1..] == more;
    if first <= s {
      FirstWordGoesOn(env, first, w, t);
      OperatorsAreNotWords(env, w[|first|]);
      assert s[|first|..][0] == w[|first|];
    }
  }

  lemma FirstWordGoesOn(env: Env, first: string, w: string, t: string)
    requires IsWord(env, first) && EndsWord(env, t) && first != w && first <= w + t
    ensures |first| < |w|
  {
    var s := w + t;
    assert forall i :: 0 <= i < |first| ==> s[i] == first[i];
    assert s[..|w|] == w && first == s[..|first|];
    if t != "" {
      assert s[|w|] == t[0];
    }
  }

  /** After the field, a bare word is not taken for `IN`, `NOT IN` or a comparison. */
  lemma BareIsNoOperator(env: Env, s: string, fid: string, w: string, t: string)
    requires env.Valid() && IsBare(env, w) && EndsWord(env, t) && ParseValue(env, s) == Ok(w + t, fid)
    ensures ParseIn(env, s).Error? && ParseNotIn(env, s).Error? && ParseCondition(env, s).Error?
  {
    hide ParseValue, ParseIn, ParseNotIn, ParseCondition, WordExact, SkipMultispace;
    var b := w + t;
    assert b[0] == w[0];
    KeywordsAreNotBare(env, w);
    OperatorsAreNotWords(env, w[0]);
    SkipNothing(b);
    BareWordExact(env, w, t, "IN");
    BareWordExact(env, w, t, "NOT");
    assert WsWord(env, "IN", b).Error?;
    NoIn(env, s, b, fid);
    NoOperator(env, s, b, fid);
  }

  lemma LetterWords(env: Env)
    requires env.Valid()
    ensures IsWord(env, "IS") && IsWord(env, "NOT") && IsWord(env, "EXISTS")
  {
    LettersAreWord(env, "IS");
    LettersAreWord(env, "NOT");
    LettersAreWord(env, "EXISTS");
  }

  /** The only phrase a bare word can be taken for is `EXISTS`, which need not be followed by a space. */
  lemma BarePhrase(env: Env, s: string, fid: string, w: string, t: string)
    requires env.Valid() && IsBare(env, w) && EndsWord(env, t) && ParseValue(env, s) == Ok(w + t, fid)
    ensures ParsePhraseLeaf(env, s) ==
            if "EXISTS" <= w then Ok((w + t)[6..], Condition(fid, Exists)) else Error(OtherKind)
  {
    var b := w + t;
    KeywordsAreNotBare(env, w);
    LetterWords(env);
    NotFirstWord(env, "IS", ["NULL"], w, t);
    NotFirstWord(env, "IS", ["NOT", "NULL"], w, t);
    NotFirstWord(env, "IS", ["EMPTY"], w, t);
    NotFirstWord(env, "IS", ["NOT", "EMPTY"], w, t);
    NotFirstWord(env, "NOT", ["EXISTS"], w, t);
    ExistsPrefix(env, w, t);
    hide ParseValue, ParsePhraseLeaf, Tags, IsWord, IsBare;
    PhraseAlternatives(env, s, b, fid);
    assert ["IS"] + ["NULL"] == ["IS", "NULL"] && ["IS"] + ["NOT", "NULL"] == ["IS", "NOT", "NULL"];
    assert ["IS"] + ["EMPTY"] == ["IS", "EMPTY"] && ["IS"] + ["NOT", "EMPTY"] == ["IS", "NOT", "EMPTY"];
    assert ["NOT"] + ["EXISTS"] == ["NOT", "EXISTS"];
  }

  lemma ExistsPrefix(env: Env, w: string, t: string)
    requires IsWord(env, "EXISTS") && w != "EXISTS" && EndsWord(env, t)
    ensures Tags(["EXISTS"], w + t) == if "EXISTS" <= w then Ok((w + t)[6..], ()) else Error(OtherKind)
  {
    var tag := "EXISTS";
    if tag <= w + t {
      FirstWordGoesOn(env, tag, w, t);
      assert w[..6] == (w + t)[..6];
    }
  }

  /**
   A range whose lower bound is a bare word is read back, whatever the bound is, if and only if the
   bound does not start with `EXISTS`; else that operator is read and the rest of the word left.
   */
  lemma BareBetweenIff(env: Env, quote: char, pad: string, gap: string, fid: string, from: string, to: string,
                       rest: string)
    requires env.Valid() && IsQuote(quote) && IsSpaces(pad) && IsGap(gap) && IsBare(env, from)
    ensures var s := Quote(quote, fid) + (pad + (from + (gap + ("TO" + (gap + (Quote(quote, to) + rest))))));
            Reads(ParseLeaf(env, s), rest, Condition(fid, Between(from, to))) <==> !("EXISTS" <= from)
  {
    hide ParseValue, Quote, ParseLeaf, ParseIn, ParseNotIn, ParseCondition, ParsePhraseLeaf, ParseTo, ParseTextLeaf,
      ParseLeafError, ParseGeoRadius, ParseGeoBoundingBox, SkipMultispace, MisusedGeo, WordLength;
    var t := gap + ("TO" + (gap + (Quote(quote, to) + rest)));
    var b := from + t;
    var s := Quote(quote, fid) + (pad + b);
    OperatorsAreNotWords(env, from[0]);
    assert b[0] == from[0];
    SkipTo(pad, b);
    QuotedValueRoundTrip(env, quote, fid, pad + b);
    assert s[0] == quote;
    QuoteIsNotGeo(env, s);
    SpacedEndsWord(env, gap, "TO" + (gap + (Quote(quote, to) + rest)));
    BareIsNoOperator(env, s, fid, from, t);
    BarePhrase(env, s, fid, from, t);
    BareToParses(env, s, fid, quote, gap, from, to, rest);
    FirstAlternative(env, s);
  }

  lemma BareToParses(env: Env, s: string, fid: string, quote: char, gap: string, from: string, to: string, rest: string)
    requires env.Valid() && IsQuote(quote) && IsGap(gap) && IsBare(env, from)
    requires ParseValue(env, s) == Ok(from + (gap + ("TO" + (gap + (Quote(quote, to) + rest)))), fid)
    ensures ParseTo(env, s) == Ok(SkipMultispace(rest), Condition(fid, Between(from, to)))
  {
    hide ParseValue, Quote, SkipMultispace, Tag, Multispace1;
    var value := Quote(quote, to) + rest;
    var after := "TO" + (gap + value);
    SpacedEndsWord(env, gap, after);
    BareValueIff(env, from, gap + after);
    SkipTo(gap, after);
    TagTaken("TO", gap + value);
    GapTaken(gap, value);
    assert value[0] == quote;
    SkipNothing(value);
    QuotedValueRoundTrip(env, quote, to, rest);
  }
}

/**
 The parser accepts nothing but the grammar (crates/filter-parser/src): whatever text it reads is
 written as the grammar allows, and the tree it returns is the one that text stands for.
 */
module FilterSound {
  import opened Basics
  import opened FilterSyntax
  import opened FilterLexer
  import opened FilterQuoting
  import opened FilterGrammar
  import opened FilterParser
  import opened FilterShape
  import P = FilterPrinter

  // ---------- Concatenation ----------

  lemma Assoc(a: string, b: string, c: string)
    ensures a + b + c == a + (b + c)
  {
  }

  // ---------- Words, spaces and tags ----------

  lemma {:induction false} Skipped(s: string) returns (sp: string)
    ensures IsSpaces(sp) && s == sp + SkipMultispace(s)
  {
    P.LeadingSpaces(s);
    sp := s[..|s| - |SkipMultispace(s)|];
  }

  lemma {:induction false} SkippedBlank(s: string) returns (sp: string)
    ensures IsBlank(sp) && s == sp + SkipWhitespace(s)
  {
    if s != "" && IsWhitespace(s[0]) {
      sp := SkippedBlank(s[1..]);
      sp := [s[0]] + sp;
      assert s == [s[0]] + s[1..];
    } else {
      sp := "";
      assert s == sp + s;
    }
  }

  lemma TagSound(tag: string, s: string)
    requires Tag(tag, s).Ok?
    ensures s == tag + Tag(tag, s).rem
  {
  }

  lemma {:induction false} WordChars(env: Env, s: string)
    ensures var n := WordLength(env, s);
            && (forall i :: 0 <= i < n ==> IsBareChar(env, s[i]))
            && (n < |s| ==> !IsBareChar(env, s[n]))
  {
    if s != "" && IsValueComponent(env, s[0]) {
      WordChars(env, s[1..]);
      var n := WordLength(env, s[1..]);
      forall i | 0 <= i < n + 1 ensures IsBareChar(env, s[i]) {
        if i > 0 {
          assert s[i] == s[1..][i - 1];
        }
      }
    }
  }

  lemma WordSound(env: Env, tag: string, s: string)
    requires WordExact(env, tag, s).Ok?
    ensures var rem := WordExact(env, tag, s).rem; s == tag + rem && (rem == "" || !IsBareChar(env, rem[0]))
  {
    WordChars(env, s);
    var n := WordLength(env, s);
    assert s == s[..n] + s[n..];
  }

  lemma WsTagSound(tag: string, s: string) returns (before: string, after: string)
    requires WsTag(tag, s).Ok?
    ensures IsSpaces(before) && IsSpaces(after) && s == before + (tag + (after + WsTag(tag, s).rem))
  {
    before := Skipped(s);
    var u := SkipMultispace(s);
    TagSound(tag, u);
    after := Skipped(Tag(tag, u).rem);
  }

  lemma WsWordSound(env: Env, tag: string, s: string) returns (before: string, after: string)
    requires WsWord(env, tag, s).Ok?
    ensures IsSpaces(before) && IsSpaces(after) && s == before + (tag + (after + WsWord(env, tag, s).rem))
  {
    before := Skipped(s);
    var u := SkipMultispace(s);
    WordSound(env, tag, u);
    after := Skipped(WordExact(env, tag, u).rem);
  }

  // ---------- Values ----------

  lemma {:induction false} ScanSound(quote: char, s: string)
    requires quote != '\\' && ScanQuoted(quote, s).Closed?
    ensures var n := ScanQuoted(quote, s).len; BodyOk(quote, s[..n]) && (n < |s| ==> s[n] == quote)
  {
    var n := ScanQuoted(quote, s).len;
    if s != "" && s[0] != quote {
      if s[0] != '\\' {
        ScanSound(quote, s[1..]);
        assert s[..n][1..] == s[1..][..n - 1];
      } else {
        ScanSound(quote, s[2..]);
        assert s[..n][2..] == s[2..][..n - 2];
      }
    }
  }

  lemma {:induction false} NothingEscaped(quote: char, s: string)
    requires quote != '\\' && ScanQuoted(quote, s).Closed? && !ScanQuoted(quote, s).escaped
    ensures var t := s[..ScanQuoted(quote, s).len]; UnescapeQuote(t, quote) == t && (t != "" ==> t[0] != quote)
  {
    var n := ScanQuoted(quote, s).len;
    UnescapeNothing(quote);
    hide UnescapeQuote;
    if s != "" && s[0] != quote {
      if s[0] != '\\' {
        NothingEscaped(quote, s[1..]);
        OtherKept(quote, s[0], s[1..][..n - 1]);
        assert s[..n] == [s[0]] + s[1..][..n - 1];
      } else {
        NothingEscaped(quote, s[2..]);
        PairKept(quote, s[1], s[2..][..n - 2]);
        assert s[..n] == ['\\'] + ([s[1]] + s[2..][..n - 2]);
      }
    }
  }

  lemma OtherKept(quote: char, c: char, rest: string)
    requires c != '\\' && UnescapeQuote(rest, quote) == rest
    ensures UnescapeQuote([c] + rest, quote) == [c] + rest
  {
    assert ([c] + rest)[1..] == rest;
  }

  /** A backslash followed by something else than the quote stays. */
  lemma PairKept(quote: char, c: char, rest: string)
    requires quote != '\\' && c != quote && UnescapeQuote(rest, quote) == rest && (rest != "" ==> rest[0] != quote)
    ensures UnescapeQuote(['\\'] + ([c] + rest), quote) == ['\\'] + ([c] + rest)
  {
    var t := [c] + rest;
    assert t[1..] == rest;
    assert UnescapeQuote(t, quote) == [c] + UnescapeQuote(rest, quote);
    var s := ['\\'] + t;
    assert s[1..] == t;
  }

  lemma QuotedSound(quote: char, s: string) returns (body: string)
    requires IsQuote(quote) && QuotedValue(quote, s).Ok?
    ensures BodyOk(quote, body) && s == body + ([quote] + QuotedValue(quote, s).rem)
    ensures QuotedValue(quote, s).out == UnescapeQuote(body, quote)
  {
    hide ScanQuoted, UnescapeQuote, BodyOk;
    ScanSound(quote, s);
    if !ScanQuoted(quote, s).escaped {
      NothingEscaped(quote, s);
    }
    var n := ScanQuoted(quote, s).len;
    body := s[..n];
    assert s == body + s[n..];
    assert s[n..] == [quote] + s[n..][1..];
  }

  lemma GeoWordIsMisused(env: Env, u: string)
    requires SkipMultispace(u) == u
    requires var w := u[..WordLength(env, u)]; w == "_geo" || "_geoPoint" <= w || "_geoDistance" <= w
    ensures MisusedGeo(env, u)
  {
    hide ParseGeoRadius, ParseGeoBoundingBox, SkipMultispace;
    var w := u[..WordLength(env, u)];
    assert u == w + u[|w|..];
  }

  lemma NotMisused(env: Env, u: string)
    requires !MisusedGeo(env, u) && SkipMultispace(u) == u
    ensures var n := WordLength(env, u); n > 0 && u[..n] !in KEYWORDS ==> !IsReserved(u[..n])
  {
    hide MisusedGeo, WordLength, KEYWORDS, IsReserved;
    var w := u[..WordLength(env, u)];
    if w == "_geo" || "_geoPoint" <= w || "_geoDistance" <= w {
      GeoWordIsMisused(env, u);
    } else if w !in KEYWORDS {
      NotKeyword(w);
    }
  }

  lemma NotKeyword(w: string)
    requires w !in KEYWORDS && w != "_geo" && !("_geoPoint" <= w) && !("_geoDistance" <= w)
    ensures !IsReserved(w)
  {
    assert KEYWORDS[0] == "AND" && KEYWORDS[1] == "OR" && KEYWORDS[2] == "IN" && KEYWORDS[3] == "NOT";
    assert KEYWORDS[4] == "TO" && KEYWORDS[5] == "EXISTS" && KEYWORDS[6] == "IS" && KEYWORDS[7] == "NULL";
    assert KEYWORDS[8] == "EMPTY" && KEYWORDS[9] == "CONTAINS" && KEYWORDS[10] == "STARTS" && KEYWORDS[11] == "WITH";
    assert KEYWORDS[12] == "_geoRadius" && KEYWORDS[13] == "_geoBoundingBox";
  }

  lemma RawSound(env: Env, u: string) returns (form: ValueForm)
    requires RawValue(env, u).Ok? && !MisusedGeo(env, u) && SkipMultispace(u) == u
    ensures ValidForm(env, form) && u == ShowForm(form) + RawValue(env, u).rem && RawOf(form) == RawValue(env, u).out
  {
    hide MisusedGeo, KEYWORDS, QuotedValue, WordLength, IsReserved, SkipMultispace;
    if IsQuote(u[0]) {
      var quote, t := u[0], u[1..];
      var body := QuotedSound(quote, t);
      form := Quoted(quote, body);
      var rem := QuotedValue(quote, t).rem;
      assert u == [quote] + t;
      Assoc(body, [quote], rem);
      Assoc([quote], body + [quote], rem);
    } else {
      form := WordFormSound(env, u);
    }
  }

  lemma WordFormSound(env: Env, u: string) returns (form: ValueForm)
    requires WordNotKeyword(env, u).Ok? && !MisusedGeo(env, u) && SkipMultispace(u) == u
    ensures ValidForm(env, form) && u == ShowForm(form) + WordNotKeyword(env, u).rem
    ensures RawOf(form) == WordNotKeyword(env, u).out
  {
    hide MisusedGeo, WordLength, IsReserved, KEYWORDS, SkipMultispace;
    WordChars(env, u);
    NotMisused(env, u);
    var n := WordLength(env, u);
    form := Bare(u[..n]);
    assert u == u[..n] + u[n..];
  }

  lemma NoSpaceLeft(s: string)
    ensures SkipMultispace(SkipWhitespace(s)) == SkipWhitespace(s)
  {
    AfterBlank(s);
    var u := SkipWhitespace(s);
    if u != "" {
      SkipNothing(u);
    }
  }

  lemma {:induction false} AfterBlank(s: string)
    ensures var u := SkipWhitespace(s); u != "" ==> !IsMultispace(u[0])
  {
    if s != "" && IsWhitespace(s[0]) {
      AfterBlank(s[1..]);
    }
  }

  /** Whatever is read as a value is written as one. */
  lemma ValueSound(env: Env, s: string) returns (w: WrittenValue)
    requires ParseValue(env, s).Ok?
    ensures ValidValue(env, w) && s == ShowValue(w) + ParseValue(env, s).rem
    ensures ValueOf(env, w) == ParseValue(env, s).out
  {
    var u := SkipWhitespace(s);
    NoSpaceLeft(s);
    var before := SkippedBlank(s);
    var raw := RawValue(env, u);
    hide RawValue, MisusedGeo, SkipWhitespace;
    var form := RawSound(env, u);
    var after := Skipped(raw.rem);
    w := WrittenValue(before, form, after);
    var rem := SkipMultispace(raw.rem);
    hide SkipMultispace, ShowForm, ValidForm, RawOf;
    Assoc(ShowForm(form), after, rem);
    Assoc(before, ShowForm(form) + after, rem);
  }

  // ---------- Phrases ----------

  lemma GapSound(s: string) returns (gap: string)
    requires Multispace1(s).Ok?
    ensures gap != "" && IsSpaces(gap) && s == gap + Multispace1(s).rem
  {
    hide SkipMultispace;
    var sp := Skipped(s[1..]);
    gap := [s[0]] + sp;
    assert s == [s[0]] + s[1..];
    Assoc([s[0]], sp, SkipMultispace(s[1..]));
  }

  lemma {:induction false} TagsSound(tags: seq<string>, s: string) returns (w: WrittenWords)
    requires tags != [] && Tags(tags, s).Ok?
    ensures ValidWords(w) && WordsOf(w) == tags && s == ShowWords(w) + Tags(tags, s).rem
    decreases |tags|
  {
    TagSound(tags[0], s);
    var s1 := Tag(tags[0], s).rem;
    if |tags| == 1 {
      w := WrittenWords(tags[0], []);
      assert ShowWords(w) == tags[0];
      assert WordsOf(w) == tags;
    } else {
      var gap := GapSound(s1);
      var s2 := Multispace1(s1).rem;
      var more := TagsSound(tags[1..], s2);
      hide Tag, Multispace1;
      w := WrittenWords(tags[0], [(gap, more.first)] + more.rest);
      assert w.rest[1..] == more.rest;
      assert ShowRest(w.rest) == gap + ShowWords(more);
      assert WordsOf(w) == tags by { WordsCons(tags[0], gap, more); }
      Assoc(gap, ShowWords(more), Tags(tags, s).rem);
      Assoc(tags[0], gap + ShowWords(more), Tags(tags, s).rem);
    }
  }

  lemma WordsCons(first: string, gap: string, more: WrittenWords)
    ensures WordsOf(WrittenWords(first, [(gap, more.first)] + more.rest)) == [first] + WordsOf(more)
  {
  }

  // ---------- Lists ----------

  lemma {:induction false} MoreValuesSound(env: Env, s: string) returns (items: seq<Item>)
    requires MoreValues(env, s).Ok?
    ensures ValidItems(env, items) && s == ShowItems(items) + MoreValues(env, s).rem
    ensures ItemValues(env, items) == MoreValues(env, s).out
    decreases |s|
  {
    hide ParseValue, WsTag, ShowValue, ValidValue, ValueOf;
    items := [];
    var comma := WsTag(",", s);
    var rem := MoreValues(env, s).rem;
    if comma.Ok? && ParseValue(env, comma.rem).Ok? {
      var before, after := WsTagSound(",", s);
      var w := ValueSound(env, comma.rem);
      var s1 := ParseValue(env, comma.rem).rem;
      var more := MoreValuesSound(env, s1);
      items := [Item(before, after, w)] + more;
      assert items[1..] == more;
      ItemGlue(before, after, ShowValue(w), ShowItems(more), rem);
    } else {
      assert "" + s == s;
    }
  }

  lemma ItemGlue(before: string, after: string, value: string, more: string, rem: string)
    ensures before + ("," + (after + (value + more))) + rem == before + ("," + (after + (value + (more + rem))))
  {
    Assoc(value, more, rem);
    Assoc(after, value + more, rem);
    Assoc(",", after + (value + more), rem);
    Assoc(before, "," + (after + (value + more)), rem);
  }

  lemma ListSound(env: Env, s: string) returns (l: WrittenList)
    requires ParseValueList(env, s).Ok?
    ensures ValidList(env, l) && s == ShowList(l) + ParseValueList(env, s).rem
    ensures ListValues(env, l) == ParseValueList(env, s).out
  {
    hide ParseValue, WsTag, ShowValue, ValidValue, ValueOf, MoreValues, ShowItems, ValidItems, ItemValues;
    var rem := ParseValueList(env, s).rem;
    if ParseValue(env, s).Error? {
      l := NoValues;
      assert "" + s == s;
    } else {
      var w := ValueSound(env, s);
      var s1 := ParseValue(env, s).rem;
      var items := MoreValuesSound(env, s1);
      var s2 := MoreValues(env, s1).rem;
      var comma: Option<(string, string)> := None;
      if WsTag(",", s2).Ok? {
        var before, after := WsTagSound(",", s2);
        comma := Some((before, after));
        Assoc(",", after, rem);
        Assoc(before, "," + after, rem);
      } else {
        assert "" + rem == rem;
      }
      l := Values(w, items, comma);
      Assoc(ShowItems(items), ShowComma(comma), rem);
      Assoc(ShowValue(w), ShowItems(items) + ShowComma(comma), rem);
    }
  }

  // ---------- Floats ----------

  lemma {:induction false} DigitsSound(s: string)
    ensures IsDigits(s[..DigitsLength(s)])
  {
    if s != "" && IsDigit(s[0]) {
      DigitsSound(s[1..]);
      var n := DigitsLength(s[1..]);
      assert s[..n + 1] == [s[0]] + s[1..][..n];
    }
  }

  lemma MantissaSound(s: string) returns (whole: string, dot: bool, fraction: string)
    requires MantissaLength(s) > 0
    ensures IsDigits(whole) && IsDigits(fraction)
    ensures if dot then whole != "" || fraction != "" else whole != "" && fraction == ""
    ensures s[..MantissaLength(s)] == whole + (if dot then "." else "") + fraction
  {
    hide DigitsLength;
    var n := DigitsLength(s);
    DigitsSound(s);
    whole := s[..n];
    dot := n < |s| && s[n] == '.';
    fraction := "";
    if dot {
      var t := s[n + 1..];
      var f := DigitsLength(t);
      DigitsSound(t);
      fraction := t[..f];
      assert s[..n + 1 + f] == whole + "." + fraction;
    } else {
      assert whole + "" + fraction == whole;
    }
  }

  lemma ExponentSound(s: string)
    requires ExponentLength(s).Some?
    ensures var t := s[..ExponentLength(s).value]; t == "" || IsExponent(t)
  {
    hide DigitsLength;
    if s != "" && (s[0] == 'e' || s[0] == 'E') {
      var sign := SignLength(s[1..]);
      var n := DigitsLength(s[1 + sign..]);
      DigitsSound(s[1 + sign..]);
      var t := s[..1 + sign + n];
      assert t[1 + sign..] == s[1 + sign..][..n];
      assert n > 0 && IsDigits(t[1 + sign..]);
      assert sign == 0 ==> t[1] == s[1] && s[1] == s[1..][0];
    }
  }

  /** Whatever is recognised as a float is written as one. */
  lemma FloatSound(s: string) returns (f: FloatForm)
    requires RecognizeFloat(s).Ok?
    ensures ValidFloat(f) && ShowFloat(f) == RecognizeFloat(s).out && s == ShowFloat(f) + RecognizeFloat(s).rem
  {
    hide MantissaLength, ExponentLength, DigitsLength, IsDigits, IsExponent;
    var sign := SignLength(s);
    var u := s[sign..];
    var m := MantissaLength(u);
    var v := s[sign + m..];
    var e := ExponentLength(v).value;
    var whole, dot, fraction := MantissaSound(u);
    ExponentSound(v);
    f := FloatForm(s[..sign], whole, dot, fraction, v[..e]);
    assert IsSign(s[..sign]);
    assert u[..m] == ShowMantissa(f);
    hide ShowMantissa, IsSign;
    CutInThree(s, sign, m, e);
  }

  lemma CutInThree(s: string, a: nat, b: nat, c: nat)
    requires a + b + c <= |s|
    ensures s[..a + b + c] == s[..a] + (s[a..][..b] + s[a + b..][..c])
    ensures s == s[..a + b + c] + s[a + b + c..]
  {
    var n := a + b + c;
    assert s[a..][..b] == s[a..a + b] && s[a + b..][..c] == s[a + b..n];
    assert s[a..n] == s[a..a + b] + s[a + b..n];
    assert s[..n] == s[..a] + s[a..n];
  }

  lemma WsFloatSound(s: string) returns (f: SpacedFloat)
    requires WsFloat(s).Ok?
    ensures IsSpaces(f.before) && ValidFloat(f.float) && IsSpaces(f.after)
    ensures ShowFloat(f.float) == WsFloat(s).out && s == ShowSpacedFloat(f) + WsFloat(s).rem
  {
    hide RecognizeFloat, ShowFloat, ValidFloat;
    var before := Skipped(s);
    var u := SkipMultispace(s);
    var form := FloatSound(u);
    var after := Skipped(RecognizeFloat(u).rem);
    f := SpacedFloat(before, form, after);
    Assoc(ShowFloat(form), after, WsFloat(s).rem);
    Assoc(before, ShowFloat(form) + after, WsFloat(s).rem);
  }

  lemma {:induction false} MoreFloatsSound(s: string) returns (fs: seq<SpacedFloat>)
    requires MoreFloats(s).Ok?
    ensures ValidFloats(fs) && s == ShowMoreFloats(fs) + MoreFloats(s).rem && FloatTexts(fs) == MoreFloats(s).out
    decreases |s|
  {
    hide WsFloat, ShowSpacedFloat, ValidFloat, ShowFloat;
    fs := [];
    if s != "" && s[0] == ',' && WsFloat(s[1..]).Ok? {
      var f := WsFloatSound(s[1..]);
      var s1 := WsFloat(s[1..]).rem;
      var more := MoreFloatsSound(s1);
      fs := [f] + more;
      assert fs[1..] == more;
      assert s == "," + s[1..];
      Assoc(ShowSpacedFloat(f), ShowMoreFloats(more), MoreFloats(s).rem);
      Assoc(",", ShowSpacedFloat(f) + ShowMoreFloats(more), MoreFloats(s).rem);
      assert FloatTexts(fs) == [ShowFloat(f.float)] + FloatTexts(more);
    } else {
      assert "" + s == s;
    }
  }

  lemma FloatListSound(open: string, close: string, s: string) returns (fs: seq<SpacedFloat>)
    requires FloatList(open, close, s).Ok?
    ensures fs != [] && ValidFloats(fs) && FloatTexts(fs) == FloatList(open, close, s).out
    ensures s == ShowFloats(open, fs, close) + FloatList(open, close, s).rem
  {
    hide WsFloat, ShowSpacedFloat, ValidFloat, ShowFloat, MoreFloats, ShowMoreFloats, Tag;
    TagSound(open, s);
    var s1 := Tag(open, s).rem;
    var f := WsFloatSound(s1);
    var s2 := WsFloat(s1).rem;
    var more := MoreFloatsSound(s2);
    var s3 := MoreFloats(s2).rem;
    TagSound(close, s3);
    var rem := Tag(close, s3).rem;
    fs := [f] + more;
    assert fs[1..] == more;
    assert FloatTexts(fs) == [ShowFloat(f.float)] + FloatTexts(more);
    Assoc(ShowMoreFloats(more), close, rem);
    Assoc(ShowSpacedFloat(f), ShowMoreFloats(more) + close, rem);
    Assoc(open, ShowSpacedFloat(f) + (ShowMoreFloats(more) + close), rem);
  }

  lemma PointSound(s: string) returns (p: SpacedPoint)
    requires WsPoint(s).Ok?
    ensures IsSpaces(p.before) && p.floats != [] && ValidFloats(p.floats) && IsSpaces(p.after)
    ensures FloatTexts(p.floats) == WsPoint(s).out && s == ShowPoint(p) + WsPoint(s).rem
  {
    hide FloatList, ShowFloats, ValidFloats, FloatTexts;
    var before := Skipped(s);
    var u := SkipMultispace(s);
    var fs := FloatListSound("[", "]", u);
    var after := Skipped(FloatList("[", "]", u).rem);
    p := SpacedPoint(before, fs, after);
    var rem := WsPoint(s).rem;
    Assoc(ShowFloats("[", fs, "]"), after, rem);
    Assoc(before, ShowFloats("[", fs, "]") + after, rem);
  }

  /** The texts of the floats of every point. */
  function PointTexts(ps: seq<SpacedPoint>): (r: seq<seq<string>>)
    ensures |r| == |ps|
  {
    seq(|ps|, i requires 0 <= i < |ps| => FloatTexts(ps[i].floats))
  }

  lemma {:induction false} MorePointsSound(s: string) returns (ps: seq<SpacedPoint>)
    requires MorePoints(s).Ok?
    ensures ValidPoints(ps) && s == ShowMorePoints(ps) + MorePoints(s).rem && PointTexts(ps) == MorePoints(s).out
    decreases |s|
  {
    hide WsPoint, ShowPoint, ValidFloats, FloatTexts;
    ps := [];
    if s != "" && s[0] == ',' && WsPoint(s[1..]).Ok? {
      var p := PointSound(s[1..]);
      var s1 := WsPoint(s[1..]).rem;
      var more := MorePointsSound(s1);
      ps := [p] + more;
      assert ps[1..] == more;
      assert s == "," + s[1..];
      Assoc(ShowPoint(p), ShowMorePoints(more), MorePoints(s).rem);
      Assoc(",", ShowPoint(p) + ShowMorePoints(more), MorePoints(s).rem);
      assert PointTexts(ps) == [FloatTexts(p.floats)] + PointTexts(more);
    } else {
      assert "" + s == s;
    }
  }

  lemma PointListSound(s: string) returns (ps: seq<SpacedPoint>)
    requires PointList(s).Ok?
    ensures ps != [] && ValidPoints(ps) && PointTexts(ps) == PointList(s).out
    ensures s == ShowPoints(ps) + PointList(s).rem
  {
    hide WsPoint, ShowPoint, ValidFloats, FloatTexts, MorePoints, ShowMorePoints, Tag;
    TagSound("(", s);
    var s1 := Tag("(", s).rem;
    var p := PointSound(s1);
    var s2 := WsPoint(s1).rem;
    var more := MorePointsSound(s2);
    var s3 := MorePoints(s2).rem;
    TagSound(")", s3);
    var rem := Tag(")", s3).rem;
    ps := [p] + more;
    assert ps[1..] == more;
    assert PointTexts(ps) == [FloatTexts(p.floats)] + PointTexts(more);
    Assoc(ShowMorePoints(more), ")", rem);
    Assoc(ShowPoint(p), ShowMorePoints(more) + ")", rem);
    Assoc("(", ShowPoint(p) + (ShowMorePoints(more) + ")"), rem);
  }

  // ---------- Leaves ----------

  /** The text read so far is the leaf, and the tree is the one it stands for. */
  ghost predicate Writes(env: Env, l: WrittenLeaf, s: string, r: IResult<Filter>) {
    r.Ok? && ValidLeaf(env, l) && LeafMeaning(env, l) == Some(r.out) && s == ShowLeaf(l) + r.rem
  }

  lemma RadiusSound(env: Env, s: string) returns (l: WrittenLeaf)
    requires ParseGeoRadius(env, s).Ok?
    ensures Writes(env, l, s, ParseGeoRadius(env, s))
  {
    hide FloatList, ShowFloats, ValidFloats, FloatTexts, WordExact, SkipMultispace;
    var before := Skipped(s);
    var u := SkipMultispace(s);
    WordSound(env, "_geoRadius", u);
    var t := WordExact(env, "_geoRadius", u).rem;
    var fs := FloatListSound("(", ")", t);
    l := Circled(before, fs);
    var rem := FloatList("(", ")", t).rem;
    Assoc("_geoRadius", ShowFloats("(", fs, ")"), rem);
    Assoc(before, "_geoRadius" + ShowFloats("(", fs, ")"), rem);
  }

  lemma BoxSound(env: Env, s: string) returns (l: WrittenLeaf)
    requires ParseGeoBoundingBox(env, s).Ok?
    ensures Writes(env, l, s, ParseGeoBoundingBox(env, s))
  {
    hide PointList, ShowPoints, FloatTexts, WordExact, SkipMultispace, ValidPoints;
    var before := Skipped(s);
    var u := SkipMultispace(s);
    WordSound(env, "_geoBoundingBox", u);
    var t := WordExact(env, "_geoBoundingBox", u).rem;
    var ps := PointListSound(t);
    l := Boxed(before, ps);
    var rem := PointList(t).rem;
    assert PointTexts(ps)[0] == FloatTexts(ps[0].floats) && PointTexts(ps)[1] == FloatTexts(ps[1].floats);
    Assoc("_geoBoundingBox", ShowPoints(ps), rem);
    Assoc(before, "_geoBoundingBox" + ShowPoints(ps), rem);
  }

  lemma OperatorSound(s: string)
    requires ComparisonOperator(s).Ok?
    ensures var r := ComparisonOperator(s); s == r.out + r.rem && IsOperator(r.out)
    ensures forall v :: Comparison(ComparisonOperator(s).out, v) == OperatorMeaning(ComparisonOperator(s).out, v)
  {
  }

  lemma ConditionSound(env: Env, s: string) returns (l: WrittenLeaf)
    requires ParseCondition(env, s).Ok?
    ensures Writes(env, l, s, ParseCondition(env, s))
  {
    hide ParseValue, ComparisonOperator, Comparison, OperatorMeaning, IsOperator, ValidValue, ShowValue, ValueOf;
    var field := ValueSound(env, s);
    var s1 := ParseValue(env, s).rem;
    OperatorSound(s1);
    var op := ComparisonOperator(s1).out;
    var s2 := ComparisonOperator(s1).rem;
    var value := ValueSound(env, s2);
    var rem := ParseValue(env, s2).rem;
    l := Compared(field, op, value);
    Assoc(op, ShowValue(value), rem);
    Assoc(ShowValue(field), op + ShowValue(value), rem);
  }

  lemma PhraseSound(env: Env, phrase: seq<string>, op: Condition, s: string)
    returns (field: WrittenValue, words: WrittenWords)
    requires phrase != [] && ParsePhrase(env, phrase, op, s).Ok?
    ensures var r := ParsePhrase(env, phrase, op, s);
            && ValidValue(env, field) && ValidWords(words) && WordsOf(words) == phrase
            && s == ShowValue(field) + ShowWords(words) + r.rem && r.out == Condition(ValueOf(env, field), op)
  {
    hide ParseValue, Tags, ValidValue, ShowValue, ValueOf, ValidWords, ShowWords, WordsOf;
    field := ValueSound(env, s);
    var s1 := ParseValue(env, s).rem;
    words := TagsSound(phrase, s1);
    Assoc(ShowValue(field), ShowWords(words), Tags(phrase, s1).rem);
  }

  lemma PhraseLeafSound(env: Env, s: string) returns (l: WrittenLeaf)
    requires ParsePhraseLeaf(env, s).Ok?
    ensures Writes(env, l, s, ParsePhraseLeaf(env, s))
  {
    hide ParsePhrase, ValidValue, ShowValue, ValueOf, ValidWords, ShowWords, WordsOf;
    var field, words;
    if ParsePhrase(env, ["IS", "NULL"], Null, s).Ok? {
      field, words := PhraseSound(env, ["IS", "NULL"], Null, s);
    } else if ParsePhrase(env, ["IS", "NOT", "NULL"], Null, s).Ok? {
      field, words := PhraseSound(env, ["IS", "NOT", "NULL"], Null, s);
    } else if ParsePhrase(env, ["IS", "EMPTY"], Empty, s).Ok? {
      field, words := PhraseSound(env, ["IS", "EMPTY"], Empty, s);
    } else if ParsePhrase(env, ["IS", "NOT", "EMPTY"], Empty, s).Ok? {
      field, words := PhraseSound(env, ["IS", "NOT", "EMPTY"], Empty, s);
    } else if ParsePhrase(env, ["EXISTS"], Exists, s).Ok? {
      field, words := PhraseSound(env, ["EXISTS"], Exists, s);
    } else {
      field, words := PhraseSound(env, ["NOT", "EXISTS"], Exists, s);
    }
    l := Phrased(field, words);
  }

  lemma TextSound(env: Env, op: TextOperator, s: string) returns (l: WrittenLeaf)
    requires ParseText(env, op, s).Ok?
    ensures Writes(env, l, s, ParseText(env, op, s))
  {
    hide ParseValue, Tags, ValidValue, ShowValue, ValueOf, ValidWords, ShowWords, WordsOf;
    var field := ValueSound(env, s);
    var s1 := ParseValue(env, s).rem;
    var words := TagsSound([op.Text()], s1);
    var s2 := Tags([op.Text()], s1).rem;
    var value := ValueSound(env, s2);
    var rem := ParseValue(env, s2).rem;
    l := Texted(field, words, value);
    Assoc(ShowWords(words), ShowValue(value), rem);
    Assoc(ShowValue(field), ShowWords(words) + ShowValue(value), rem);
  }

  lemma NotTextSound(env: Env, op: TextOperator, s: string) returns (l: WrittenLeaf)
    requires ParseNotText(env, op, s).Ok?
    ensures Writes(env, l, s, ParseNotText(env, op, s))
  {
    hide ParseValue, Tags, ValidValue, ShowValue, ValueOf, ValidWords, ShowWords, WordsOf;
    var tags := ["NOT", op.Text()];
    var field := ValueSound(env, s);
    var s1 := ParseValue(env, s).rem;
    var words := TagsSound(tags, s1);
    var s2 := Tags(tags, s1).rem;
    var value := ValueSound(env, s2);
    var rem := ParseValue(env, s2).rem;
    l := Texted(field, words, value);
    Assoc(ShowWords(words), ShowValue(value), rem);
    Assoc(ShowValue(field), ShowWords(words) + ShowValue(value), rem);
  }

  lemma TextLeafSound(env: Env, s: string) returns (l: WrittenLeaf)
    requires ParseTextLeaf(env, s).Ok?
    ensures Writes(env, l, s, ParseTextLeaf(env, s))
  {
    hide ParseText, ParseNotText, Writes;
    if ParseText(env, ContainsWord, s).Ok? {
      l := TextSound(env, ContainsWord, s);
    } else if ParseNotText(env, ContainsWord, s).Ok? {
      l := NotTextSound(env, ContainsWord, s);
    } else if ParseText(env, StartsWithWord, s).Ok? {
      l := TextSound(env, StartsWithWord, s);
    } else {
      l := NotTextSound(env, StartsWithWord, s);
    }
  }

  lemma ToSound(env: Env, s: string) returns (l: WrittenLeaf)
    requires ParseTo(env, s).Ok?
    ensures Writes(env, l, s, ParseTo(env, s))
  {
    hide ParseValue, Tag, Multispace1, ValidValue, ShowValue, ValueOf;
    var field := ValueSound(env, s);
    var s1 := ParseValue(env, s).rem;
    var from := ValueSound(env, s1);
    var s2 := ParseValue(env, s1).rem;
    TagSound("TO", s2);
    var s3 := Tag("TO", s2).rem;
    var gap := GapSound(s3);
    var s4 := Multispace1(s3).rem;
    var to := ValueSound(env, s4);
    var rem := ParseValue(env, s4).rem;
    l := Ranged(field, from, gap, to);
    Assoc(gap, ShowValue(to), rem);
    Assoc("TO", gap + ShowValue(to), rem);
    Assoc(ShowValue(from), "TO" + (gap + ShowValue(to)), rem);
    Assoc(ShowValue(field), ShowValue(from) + ("TO" + (gap + ShowValue(to))), rem);
  }

  lemma InBodySound(env: Env, s: string)
    returns (before: string, after: string, list: WrittenList, inner: string, outer: string)
    requires ParseInBody(env, s).Ok?
    ensures IsSpaces(before) && IsSpaces(after) && IsSpaces(inner) && IsSpaces(outer) && ValidList(env, list)
    ensures ListValues(env, list) == ParseInBody(env, s).out
    ensures var rem := ParseInBody(env, s).rem;
            s == before + ("IN" + (after + ("[" + (ShowList(list) + (inner + ("]" + (outer + rem)))))))
  {
    hide WsWord, Tag, ParseValueList, WsTag, ShowList, ValidList, ListValues;
    before, after := WsWordSound(env, "IN", s);
    var s1 := WsWord(env, "IN", s).rem;
    TagSound("[", s1);
    var s2 := Tag("[", s1).rem;
    list := ListSound(env, s2);
    inner, outer := WsTagSound("]", ParseValueList(env, s2).rem);
  }

  lemma InGlue(a: string, b: string, list: string, inner: string, outer: string, rem: string)
    ensures a + ("IN" + (b + ("[" + (list + (inner + ("]" + outer)))))) + rem ==
            a + ("IN" + (b + ("[" + (list + (inner + ("]" + (outer + rem)))))))
  {
    Assoc("]", outer, rem);
    Assoc(inner, "]" + outer, rem);
    Assoc(list, inner + ("]" + outer), rem);
    Assoc("[", list + (inner + ("]" + outer)), rem);
    Assoc(b, "[" + (list + (inner + ("]" + outer))), rem);
    Assoc("IN", b + ("[" + (list + (inner + ("]" + outer)))), rem);
    Assoc(a, "IN" + (b + ("[" + (list + (inner + ("]" + outer))))), rem);
  }

  lemma InSound(env: Env, s: string) returns (l: WrittenLeaf)
    requires ParseIn(env, s).Ok?
    ensures Writes(env, l, s, ParseIn(env, s))
  {
    hide ParseValue, ParseInBody, ValidValue, ShowValue, ValueOf, ShowList, ValidList, ListValues;
    var field := ValueSound(env, s);
    var s1 := ParseValue(env, s).rem;
    var before, after, list, inner, outer := InBodySound(env, s1);
    var rem := ParseInBody(env, s1).rem;
    l := Listed(field, None, before, after, list, inner, outer);
    var body := before + ("IN" + (after + ("[" + (ShowList(list) + (inner + ("]" + outer))))));
    InGlue(before, after, ShowList(list), inner, outer, rem);
    assert "" + body == body;
    Assoc(ShowValue(field), body, rem);
  }

  /** The word `NOT` has ended, so there are spaces before `IN`. */
  lemma NotThenIn(env: Env, s: string, before: string, t: string)
    requires env.Valid() && s == before + ("IN" + t) && (s == "" || !IsBareChar(env, s[0]))
    ensures before != ""
  {
    assert 'I' in env.alnum;
    assert s[0] == if before == "" then 'I' else before[0];
  }

  lemma NotInSound(env: Env, s: string) returns (l: WrittenLeaf)
    requires env.Valid() && ParseNotIn(env, s).Ok?
    ensures Writes(env, l, s, ParseNotIn(env, s))
  {
    hide ParseValue, ParseInBody, WordExact, ValidValue, ShowValue, ValueOf, ShowList, ValidList, ListValues;
    var field := ValueSound(env, s);
    var s1 := ParseValue(env, s).rem;
    WordSound(env, "NOT", s1);
    var s2 := WordExact(env, "NOT", s1).rem;
    var before, after, list, inner, outer := InBodySound(env, s2);
    var rem := ParseInBody(env, s2).rem;
    NotThenIn(env, s2, before, after + ("[" + (ShowList(list) + (inner + ("]" + (outer + rem))))));
    l := Listed(field, Some(before), "", after, list, inner, outer);
    var tail := "IN" + (after + ("[" + (ShowList(list) + (inner + ("]" + outer)))));
    InGlue(before, after, ShowList(list), inner, outer, rem);
    assert "" + tail == tail;
    Assoc("NOT", before, tail);
    Assoc("NOT", before + tail, rem);
    Assoc(ShowValue(field), "NOT" + (before + tail), rem);
  }

  lemma LeafErrorSound(env: Env, s: string) returns (l: WrittenLeaf)
    requires ParseLeafError(env, s).Ok?
    ensures Writes(env, l, s, ParseLeafError(env, s))
  {
    hide ParseCondition, Writes;
    l := ConditionSound(env, s);
  }

  /** Whatever is read as a leaf is written as one. */
  lemma LeafSound(env: Env, s: string) returns (l: WrittenLeaf)
    requires env.Valid() && ParseLeaf(env, s).Ok?
    ensures Writes(env, l, s, ParseLeaf(env, s))
  {
    hide ParseGeoRadius, ParseGeoBoundingBox, ParseIn, ParseNotIn, ParseCondition, ParsePhraseLeaf, ParseTo,
      ParseTextLeaf, ParseLeafError, Writes;
    if ParseGeoRadius(env, s).Ok? {
      l := RadiusSound(env, s);
    } else if ParseGeoBoundingBox(env, s).Ok? {
      l := BoxSound(env, s);
    } else if ParseIn(env, s).Ok? {
      l := InSound(env, s);
    } else if ParseNotIn(env, s).Ok? {
      l := NotInSound(env, s);
    } else if ParseCondition(env, s).Ok? {
      l := ConditionSound(env, s);
    } else if ParsePhraseLeaf(env, s).Ok? {
      l := PhraseLeafSound(env, s);
    } else if ParseTo(env, s).Ok? {
      l := ToSound(env, s);
    } else if ParseTextLeaf(env, s).Ok? {
      l := TextLeafSound(env, s);
    } else {
      l := LeafErrorSound(env, s);
    }
  }

  // ---------- Filters ----------

  /** The text read so far is the filter, and the tree is the one it stands for. */
  ghost predicate Spells(env: Env, c: bool, w: Written, s: string, r: IResult<Filter>) {
    r.Ok? && s == Show(w) + r.rem && Meaning(env, c, w) == r.out
  }

  lemma {:induction false} OrSound(env: Env, c: bool, s: string, depth: nat) returns (w: Written)
    requires env.Valid() && ParseOr(env, c, s, depth).Ok?
    ensures ValidOr(env, w) && Spells(env, c, w, s, ParseOr(env, c, s, depth))
    decreases Fuel(depth), |s| + 1
  {
    hide ParseAnd, MoreOrs, ValidAnd, ValidAndLinks;
    var first := AndSound(env, c, s, depth + 1);
    var s1 := ParseAnd(env, c, s, depth + 1).rem;
    var links := MoreOrsSound(env, c, s1, depth);
    if links == [] {
      w := first;
      NoChainOr(env, w);
      assert "" + s1 == s1;
    } else {
      w := Chained("OR", first, links);
      Assoc(Show(first), ShowLinks("OR", links), MoreOrs(env, c, s1, depth).rem);
    }
  }

  lemma NoChainOr(env: Env, w: Written)
    requires ValidAnd(env, w)
    ensures ValidOr(env, w)
  {
  }

  lemma LinkGlue(before: string, word: string, after: string, operand: string, more: string, rem: string)
    ensures before + (word + (after + (operand + more))) + rem == before + (word + (after + (operand + (more + rem))))
  {
    Assoc(operand, more, rem);
    Assoc(after, operand + more, rem);
    Assoc(word, after + (operand + more), rem);
    Assoc(before, word + (after + (operand + more)), rem);
  }

  lemma {:induction false} MoreOrsSound(env: Env, c: bool, s: string, depth: nat) returns (links: seq<Link>)
    requires env.Valid() && depth <= MAX_FILTER_DEPTH && MoreOrs(env, c, s, depth).Ok?
    ensures var r := MoreOrs(env, c, s, depth);
            ValidAndLinks(env, links) && s == ShowLinks("OR", links) + r.rem && LinkMeanings(env, c, links) == r.out
    decreases Fuel(depth), |s|
  {
    hide ParseAnd, WsWord, ValidAnd, Show, Meaning;
    links := [];
    var word := WsWord(env, "OR", s);
    if word.Ok? {
      var before, after := WsWordSound(env, "OR", s);
      var operand := AndSound(env, c, word.rem, depth + 1);
      var s1 := ParseAnd(env, c, word.rem, depth + 1).rem;
      var more := MoreOrsSound(env, c, s1, depth);
      links := [Link(before, after, operand)] + more;
      assert links[1..] == more;
      LinkGlue(before, "OR", after, Show(operand), ShowLinks("OR", more), MoreOrs(env, c, s, depth).rem);
    } else {
      assert "" + s == s;
    }
  }

  lemma {:induction false} AndSound(env: Env, c: bool, s: string, depth: nat) returns (w: Written)
    requires env.Valid() && ParseAnd(env, c, s, depth).Ok?
    ensures ValidAnd(env, w) && Spells(env, c, w, s, ParseAnd(env, c, s, depth))
    decreases Fuel(depth), |s| + 1
  {
    hide ParseNot, MoreAnds, ValidNot, ValidNotLinks;
    var first := NotSound(env, c, s, depth + 1);
    var s1 := ParseNot(env, c, s, depth + 1).rem;
    var links := MoreAndsSound(env, c, s1, depth);
    if links == [] {
      w := first;
      NoChainAnd(env, w);
      assert "" + s1 == s1;
    } else {
      w := Chained("AND", first, links);
      Assoc(Show(first), ShowLinks("AND", links), MoreAnds(env, c, s1, depth).rem);
    }
  }

  lemma NoChainAnd(env: Env, w: Written)
    requires ValidNot(env, w)
    ensures ValidAnd(env, w)
  {
  }

  lemma {:induction false} MoreAndsSound(env: Env, c: bool, s: string, depth: nat) returns (links: seq<Link>)
    requires env.Valid() && depth <= MAX_FILTER_DEPTH && MoreAnds(env, c, s, depth).Ok?
    ensures var r := MoreAnds(env, c, s, depth);
            ValidNotLinks(env, links) && s == ShowLinks("AND", links) + r.rem && LinkMeanings(env, c, links) == r.out
    decreases Fuel(depth), |s|
  {
    hide ParseNot, WsWord, ValidNot, Show, Meaning;
    links := [];
    var word := WsWord(env, "AND", s);
    if word.Ok? {
      var before, after := WsWordSound(env, "AND", s);
      var operand := NotSound(env, c, word.rem, depth + 1);
      var s1 := ParseNot(env, c, word.rem, depth + 1).rem;
      var more := MoreAndsSound(env, c, s1, depth);
      links := [Link(before, after, operand)] + more;
      assert links[1..] == more;
      LinkGlue(before, "AND", after, Show(operand), ShowLinks("AND", more), MoreAnds(env, c, s, depth).rem);
    } else {
      assert "" + s == s;
    }
  }

  lemma {:induction false} NotSound(env: Env, c: bool, s: string, depth: nat) returns (w: Written)
    requires env.Valid() && ParseNot(env, c, s, depth).Ok?
    ensures ValidNot(env, w) && Spells(env, c, w, s, ParseNot(env, c, s, depth))
    decreases Fuel(depth), |s| + 1
  {
    hide ParsePrimary, WsWord;
    var word := WsWord(env, "NOT", s);
    if word.Ok? {
      var before, after := WsWordSound(env, "NOT", s);
      var inner := NotSound(env, c, word.rem, depth + 1);
      var rem := ParseNot(env, c, word.rem, depth + 1).rem;
      w := Negated(before, after, inner);
      Assoc(after, Show(inner), rem);
      Assoc("NOT", after + Show(inner), rem);
      Assoc(before, "NOT" + (after + Show(inner)), rem);
    } else {
      w := PrimarySound(env, c, s, depth + 1);
    }
  }

  lemma {:induction false} PrimarySound(env: Env, c: bool, s: string, depth: nat) returns (w: Written)
    requires env.Valid() && ParsePrimary(env, c, s, depth).Ok?
    ensures ValidNot(env, w) && Spells(env, c, w, s, ParsePrimary(env, c, s, depth))
    decreases Fuel(depth), |s| + 1
  {
    hide ParseOr, ParseLeaf, WsTag, ValidOr, ShowLeaf, ValidLeaf, LeafMeaning;
    var bracket := WsTag("(", s);
    if bracket.Ok? {
      var before, open := WsTagSound("(", s);
      var inner := OrSound(env, c, bracket.rem, depth + 1);
      var s1 := ParseOr(env, c, bracket.rem, depth + 1).rem;
      var close, after := WsTagSound(")", s1);
      var rem := WsTag(")", s1).rem;
      w := Grouped(before, open, inner, close, after);
      GroupGlue(before, open, Show(inner), close, after, rem);
    } else {
      var leaf := LeafSound(env, s);
      w := Single(leaf);
    }
  }

  lemma GroupGlue(before: string, open: string, inner: string, close: string, after: string, rem: string)
    ensures before + ("(" + (open + (inner + (close + (")" + after))))) + rem ==
            before + ("(" + (open + (inner + (close + (")" + (after + rem))))))
  {
    Assoc(")", after, rem);
    Assoc(close, ")" + after, rem);
    Assoc(inner, close + (")" + after), rem);
    Assoc(open, inner + (close + (")" + after)), rem);
    Assoc("(", open + (inner + (close + (")" + after))), rem);
    Assoc(before, "(" + (open + (inner + (close + (")" + after)))), rem);
  }

  // ---------- Fields ----------

  /** The field a leaf is about. */
  function LeafFields(env: Env, l: WrittenLeaf): seq<string> {
    if l.Circled? || l.Boxed? then [] else [ValueOf(env, l.field)]
  }

  /** The fields of a filter in the order in which they are written. */
  function FieldsOf(env: Env, w: Written): seq<string>
    decreases w
  {
    match w
    case Single(leaf) => LeafFields(env, leaf)
    case Grouped(_, _, inner, _, _) => FieldsOf(env, inner)
    case Negated(_, _, inner) => FieldsOf(env, inner)
    case Chained(_, first, links) => FieldsOf(env, first) + LinkFields(env, links)
  }

  function LinkFields(env: Env, links: seq<Link>): seq<string>
    decreases links
  {
    if links == [] then [] else FieldsOf(env, links[0].operand) + LinkFields(env, links[1..])
  }

  lemma LeafFieldsAre(env: Env, l: WrittenLeaf)
    requires LeafMeaning(env, l).Some?
    ensures AllFids(LeafMeaning(env, l).value) == LeafFields(env, l)
  {
    hide ValueOf, ListValues, FloatTexts, WordsOf, OperatorMeaning;
  }

  lemma {:induction false} MeaningFields(env: Env, c: bool, w: Written)
    requires ValidOr(env, w)
    ensures AllFids(Meaning(env, c, w)) == FieldsOf(env, w)
    decreases w, 0
  {
    if !w.Chained? {
      Unchained(env, w);
    }
    match w
    case Single(leaf) =>
      LeafFieldsAre(env, leaf);
    case Grouped(_, _, inner, _, _) => MeaningFields(env, c, inner);
    case Negated(_, _, inner) =>
      assert ValidOr(env, inner) by { NoChainAnd(env, inner); NoChainOr(env, inner); }
      MeaningFields(env, c, inner);
    case Chained(word, first, links) =>
      OperandsAreOrs(env, w);
      MeaningFields(env, c, first);
      LinkMeaningFields(env, c, links);
      var f, fs := Meaning(env, c, first), LinkMeanings(env, c, links);
      assert ([f] + fs)[1..] == fs;
  }

  lemma Unchained(env: Env, w: Written)
    requires !w.Chained? && ValidOr(env, w)
    ensures ValidNot(env, w)
  {
    assert ValidAnd(env, w);
  }

  /** The operands may stand alone. */
  predicate AllOrs(env: Env, links: seq<Link>) {
    forall i :: 0 <= i < |links| ==> ValidOr(env, links[i].operand)
  }

  lemma OperandsAreOrs(env: Env, w: Written)
    requires w.Chained? && ValidOr(env, w)
    ensures ValidOr(env, w.first) && AllOrs(env, w.links)
  {
    if w.word == "OR" {
      NoChainOr(env, w.first);
      AndLinksAreOrs(env, w.links);
    } else {
      NoChainAnd(env, w.first);
      NoChainOr(env, w.first);
      NotLinksAreOrs(env, w.links);
    }
  }

  lemma {:induction false} AndLinksAreOrs(env: Env, links: seq<Link>)
    requires ValidAndLinks(env, links)
    ensures AllOrs(env, links)
    decreases |links|
  {
    if links != [] {
      NoChainOr(env, links[0].operand);
      AndLinksAreOrs(env, links[1..]);
      hide ValidOr;
      assert forall i :: 0 < i < |links| ==> links[i] == links[1..][i - 1];
    }
  }

  lemma {:induction false} NotLinksAreOrs(env: Env, links: seq<Link>)
    requires ValidNotLinks(env, links)
    ensures AllOrs(env, links)
    decreases |links|
  {
    if links != [] {
      NoChainAnd(env, links[0].operand);
      NoChainOr(env, links[0].operand);
      NotLinksAreOrs(env, links[1..]);
      hide ValidOr;
      assert forall i :: 0 < i < |links| ==> links[i] == links[1..][i - 1];
    }
  }

  lemma {:induction false} LinkMeaningFields(env: Env, c: bool, links: seq<Link>)
    requires AllOrs(env, links)
    ensures AllFidsOf(LinkMeanings(env, c, links)) == LinkFields(env, links)
    decreases links, 1
  {
    if links != [] {
      MeaningFields(env, c, links[0].operand);
      LinkMeaningFields(env, c, links[1..]);
      var f, fs := Meaning(env, c, links[0].operand), LinkMeanings(env, c, links[1..]);
      assert ([f] + fs)[1..] == fs;
    }
  }

  /**
   `fids` lists the fields of every accepted filter in the order in which they are written; the depth
   it is called with never cuts it off.
   */
  lemma FidsAsWritten(env: Env, s: string) returns (w: Written)
    requires env.Valid() && ParseFilter(env, true, s).Ok?
    ensures s == Show(w) && Fids(ParseFilter(env, true, s).out, MAX_FILTER_DEPTH) == FieldsOf(env, w)
  {
    w := FilterSound(env, true, s);
    FidsNeverTruncated(env, s);
    MeaningFields(env, true, w);
  }

  /**
   Soundness: every text the parser accepts as a filter is written as the grammar allows, to its very
   end, and the tree returned is the one the text stands for.
   */
  lemma FilterSound(env: Env, c: bool, s: string) returns (w: Written)
    requires env.Valid() && ParseFilter(env, c, s).Ok?
    ensures ValidOr(env, w) && s == Show(w) && ParseFilter(env, c, s) == Ok("", Meaning(env, c, w))
  {
    hide ParseOr, ValidOr, Show, Meaning;
    w := OrSound(env, c, s, 0);
    assert Show(w) + "" == Show(w);
  }
}

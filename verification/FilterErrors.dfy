/**
 Errors that stop the parser for good (crates/filter-parser/src/lib.rs): once an opening
 parenthesis, an `AND`, an `OR` or a reserved word is seen, nothing else is tried.
 */
module FilterErrors {
  import opened FilterSyntax
  import opened FilterLexer
  import opened FilterGeo
  import opened FilterParser
  import opened FilterPrinter
  import opened FilterRoundTrip

  /** With no value to start from, a reserved word is a final error and anything else is not. */
  lemma LeafWithoutValue(env: Env, s: string, reserved: bool)
    requires ParseValue(env, s) == Error(ExpectedValue(reserved))
    ensures ParseLeaf(env, s) == if reserved then Failure(ExpectedValue(true)) else Error(ExpectedValue(false))
  {
    assert !MisusedGeo(env, SkipWhitespace(s));
    hide MisusedGeo, ParseValue, ParseGeoRadius, ParseGeoBoundingBox, ParseGeo, ParseGeoReserved, ParseLeaf,
      SkipWhitespace;
    NoGeo(env, s);
    FirstAlternative(env, s);
  }

  /** After the spaces that every parser skips there is nothing, another white space, or what a value is read from. */
  lemma {:induction false} SpacesSkipped(s: string)
    ensures var u := SkipMultispace(s);
            u == "" || IsWhitespace(u[0]) || (SkipWhitespace(s) == u && SkipMultispace(u) == u)
  {
    if s != "" && IsMultispace(s[0]) {
      SpacesSkipped(s[1..]);
    }
  }

  lemma NoGeo(env: Env, s: string)
    requires !MisusedGeo(env, SkipWhitespace(s))
    ensures ParseGeoRadius(env, s).Error? && ParseGeoBoundingBox(env, s).Error? && ParseGeo(env, s).Error?
    ensures ParseGeoReserved("_geoPoint", s).Error? && ParseGeoReserved("_geoDistance", s).Error?
  {
    SpacesSkipped(s);
    hide FloatList, PointList, SkipMultispace, SkipWhitespace;
    var u := SkipMultispace(s);
    if u != "" && u[0] != '_' {
      WordMismatch(env, "_geoRadius", u, 0);
      WordMismatch(env, "_geoBoundingBox", u, 0);
      WordMismatch(env, "_geo", u, 0);
    } else if u != "" {
      hide WordExact;
    }
  }

  lemma NothingIsNotAValue(env: Env)
    ensures ParseValue(env, "") == Error(ExpectedValue(false))
  {
  }

  /** Where no operand follows, parsing one gives up. */
  lemma NoOperand(env: Env, c: bool, depth: nat)
    ensures ParseNot(env, c, "", depth).Error? && ParseAnd(env, c, "", depth).Error?
  {
    NothingIsNotAValue(env);
    LeafWithoutValue(env, "", false);
    hide ParseLeaf, ParseValue, ParseNot, ParseAnd, ParseOr;
    NoNotStep(env, c, "", depth);
    NoNotStep(env, c, "", depth + 1);
    AndStep(env, c, "", depth);
    assert ParsePrimary(env, c, "", depth + 1).Error? && ParsePrimary(env, c, "", depth + 2).Error?;
  }

  /** A final error of the first operand is the error of the filter. */
  lemma FailurePropagates(env: Env, c: bool, s: string)
    requires ParseNot(env, c, s, 2).Failure?
    ensures ParseFilter(env, c, s) == ParseNot(env, c, s, 2)
  {
    hide ParseNot, ParseAnd, ParseOr, MoreAnds, MoreOrs;
    AndStep(env, c, s, 1);
    OrStep(env, c, s, 0);
  }

  lemma OpenThenNothing(env: Env, c: bool, s: string, t: string)
    requires WsTag("(", s) == Ok(t, ()) && WsWord(env, "NOT", s).Error?
    ensures var r := ParseOr(env, c, t, 4);
            && (r.Ok? && r.rem == "" ==> ParseFilter(env, c, s) == Failure(OtherKind))
            && (r.DepthError() ==> ParseFilter(env, c, s) == Failure(DepthLimitReached))
  {
    assert WsTag(")", "") == Error(OtherKind);
    hide ParseOr, ParseNot, ParseFilter, ParseLeaf, WsTag, WsWord;
    var r := ParseOr(env, c, t, 4);
    assert r.Ok? && r.rem == "" ==> ParsePrimary(env, c, s, 3) == Failure(OtherKind);
    assert r.DepthError() ==> ParsePrimary(env, c, s, 3) == Failure(DepthLimitReached);
    hide ParsePrimary;
    NoNotStep(env, c, s, 2);
    if (r.Ok? && r.rem == "") || r.DepthError() {
      FailurePropagates(env, c, s);
    }
  }

  /** An opening parenthesis that is never closed. */
  lemma UnclosedParenthesis(env: Env, c: bool, style: Style, e: Syntax)
    requires env.Valid() && style.Valid() && WellFormed(e)
    ensures ParseFilter(env, c, "(" + (style.pad + Text(style, e))) ==
            Failure(if 4 + NeedOr(e) <= MAX_FILTER_DEPTH then OtherKind else DepthLimitReached)
  {
    hide ParseOr, ParseFilter, Text, Tree, WsTag, WsWord, NeedOr;
    var t := Text(style, e);
    TextStarts(style, e);
    OpenTaken(style.pad, t);
    NoWordAtEnd(env);
    OrParses(env, c, style, e, "", 4);
    assert t + "" == t;
    NoNotAtOpen(env, style.pad + t);
    OpenThenNothing(env, c, "(" + (style.pad + t), t);
  }

  // ---------- The depth limit is a final error of the filter ----------

  lemma {:induction false} MoreAndsNeverBacktrack(env: Env, c: bool, s: string, depth: nat)
    requires depth <= MAX_FILTER_DEPTH
    ensures !MoreAnds(env, c, s, depth).Error?
    decreases |s|
  {
    hide ParseNot, WsWord;
    var word := WsWord(env, "AND", s);
    if word.Ok? {
      var f := ParseNot(env, c, word.rem, depth + 1);
      if f.Ok? {
        MoreAndsNeverBacktrack(env, c, f.rem, depth);
      }
    }
  }

  /** With room for a primary, every deeper level lies behind a `cut`. */
  lemma NotErrorKind(env: Env, c: bool, s: string, depth: nat)
    requires depth + 1 <= MAX_FILTER_DEPTH
    ensures ParseNot(env, c, s, depth).Error? ==> ParseNot(env, c, s, depth).kind == InvalidPrimary
  {
    hide ParseOr, ParseLeaf, WsTag, WsWord;
  }

  lemma AndErrorKind(env: Env, c: bool, s: string, depth: nat)
    requires depth + 2 <= MAX_FILTER_DEPTH
    ensures ParseAnd(env, c, s, depth).Error? ==> ParseAnd(env, c, s, depth).kind == InvalidPrimary
  {
    NotErrorKind(env, c, s, depth + 1);
    hide ParseNot, MoreAnds, ParseAnd;
    AndStep(env, c, s, depth);
    var first := ParseNot(env, c, s, depth + 1);
    if first.Ok? {
      MoreAndsNeverBacktrack(env, c, first.rem, depth);
    }
  }

  lemma {:induction false} MoreOrsNeverBacktrack(env: Env, c: bool, s: string, depth: nat)
    requires depth <= MAX_FILTER_DEPTH
    ensures !MoreOrs(env, c, s, depth).Error?
    decreases |s|
  {
    hide ParseAnd, WsWord;
    var word := WsWord(env, "OR", s);
    if word.Ok? {
      var f := ParseAnd(env, c, word.rem, depth + 1);
      if f.Ok? {
        MoreOrsNeverBacktrack(env, c, f.rem, depth);
      }
    }
  }

  lemma OrErrorKind(env: Env, c: bool, s: string, depth: nat)
    requires depth + 3 <= MAX_FILTER_DEPTH
    ensures ParseOr(env, c, s, depth).Error? ==> ParseOr(env, c, s, depth).kind == InvalidPrimary
  {
    AndErrorKind(env, c, s, depth + 1);
    hide ParseAnd, MoreOrs, ParseOr;
    OrStep(env, c, s, depth);
    var first := ParseAnd(env, c, s, depth + 1);
    if first.Ok? {
      MoreOrsNeverBacktrack(env, c, first.rem, depth);
    }
  }

  // ---------- Where the parser commits itself, for every input ----------

  /** After an opening parenthesis or a `NOT`, whatever goes wrong is final. */
  lemma OpenAndNotCommit(env: Env, c: bool, s: string, depth: nat)
    requires depth <= MAX_FILTER_DEPTH
    ensures WsTag("(", s).Ok? ==> !ParsePrimary(env, c, s, depth).Error?
    ensures WsWord(env, "NOT", s).Ok? ==> !ParseNot(env, c, s, depth).Error?
  {
    hide ParseOr, ParseLeaf, WsTag, WsWord;
  }

  /** After the field, a comparison operator, `IN` and `NOT IN` must be followed by what they need. */
  lemma OperatorsCommit(env: Env, s: string)
    requires ParseValue(env, s).Ok?
    ensures var b := ParseValue(env, s).rem;
            && (ComparisonOperator(b).Ok? ==> !ParseCondition(env, s).Error?)
            && (WsWord(env, "IN", b).Ok? ==> !ParseIn(env, s).Error?)
            && (WordExact(env, "NOT", b).Ok? && WsWord(env, "IN", WordExact(env, "NOT", b).rem).Ok? ==>
                 !ParseNotIn(env, s).Error?)
  {
    hide ParseValue, ComparisonOperator, WsWord, WordExact, ParseValueList, WsTag, Tag;
  }

  lemma TextsCommit(env: Env, s: string, op: TextOperator)
    requires ParseValue(env, s).Ok?
    ensures var b := ParseValue(env, s).rem;
            && (Tags([op.Text()], b).Ok? ==> !ParseText(env, op, s).Error?)
            && (Tags(["NOT", op.Text()], b).Ok? ==> !ParseNotText(env, op, s).Error?)
  {
    hide ParseValue, Tags;
  }

  lemma RangeCommits(env: Env, s: string)
    requires ParseValue(env, s).Ok? && ParseValue(env, ParseValue(env, s).rem).Ok?
    ensures var t := ParseValue(env, ParseValue(env, s).rem).rem;
            Tag("TO", t).Ok? && Multispace1(Tag("TO", t).rem).Ok? ==> !ParseTo(env, s).Error?
  {
    hide ParseValue, Tag, Multispace1;
  }

  lemma GeoCommits(env: Env, s: string)
    ensures WordExact(env, "_geoRadius", SkipMultispace(s)).Ok? ==> !ParseGeoRadius(env, s).Error?
    ensures WordExact(env, "_geoBoundingBox", SkipMultispace(s)).Ok? ==> !ParseGeoBoundingBox(env, s).Error?
  {
    hide WordExact, SkipMultispace, FloatList, PointList;
  }

  // ---------- What is left over ----------

  /**
   An expression must be the whole filter: anything left over but spaces, unless it goes on with `AND`
   or `OR`, is an error, which is the depth limit exactly if the depth does not suffice.
   */
  lemma LeftoverIsRejected(env: Env, c: bool, style: Style, e: Syntax, rest: string)
    requires env.Valid() && style.Valid() && WellFormed(e)
    requires NoWord(env, "AND", rest) && NoWord(env, "OR", rest) && SkipMultispace(rest) != ""
    ensures ParseFilter(env, c, Text(style, e) + rest) ==
            if NeedOr(e) <= MAX_FILTER_DEPTH then Error(OtherKind) else Failure(DepthLimitReached)
  {
    hide ParseOr, Text, Tree, NoWord, NeedOr;
    OrParses(env, c, style, e, rest, 0);
    OrErrorKind(env, c, Text(style, e) + rest, 0);
    assert SkipMultispace("") == "";
  }

  /** A closing parenthesis too many. */
  lemma ExtraParenthesis(env: Env, c: bool, style: Style, e: Syntax, t: string)
    requires env.Valid() && style.Valid() && WellFormed(e)
    ensures ParseFilter(env, c, Text(style, e) + (style.pad + (")" + t))) ==
            if NeedOr(e) <= MAX_FILTER_DEPTH then Error(OtherKind) else Failure(DepthLimitReached)
  {
    hide ParseFilter, Text, NeedOr, NoWord;
    NoWordAtClose(env, style.pad, "AND", t);
    NoWordAtClose(env, style.pad, "OR", t);
    SkipTo(style.pad, ")" + t);
    LeftoverIsRejected(env, c, style, e, style.pad + (")" + t));
  }

  lemma NoWordAtEnd(env: Env)
    ensures NoWord(env, "AND", "") && NoWord(env, "OR", "")
  {
  }

  /** A connective with nothing but spaces after it. */
  function Dangling(style: Style, word: string): string {
    style.gap + (word + style.pad)
  }

  lemma ConnectiveAtEnd(env: Env, style: Style, word: string)
    requires env.Valid() && style.Valid() && IsLetters(word) && word != ""
    ensures WsWord(env, word, Dangling(style, word)) == Ok("", ())
  {
    assert style.pad + "" == style.pad;
    SpacedEndsWord(env, style.pad, "");
    LettersAreWord(env, word);
    WordEndsAt(env, word, style.pad);
    assert (word + style.pad)[0] == word[0];
    SkipTo(style.gap, word + style.pad);
    SkipSpaces(style.pad, "");
    hide WordLength, IsWord;
  }

  /** A connective at the very end of the text is read. */
  lemma ConnectivesTaken(env: Env, style: Style)
    requires env.Valid() && style.Valid()
    ensures WsWord(env, "OR", Dangling(style, "OR")) == Ok("", ()) && NoWord(env, "AND", Dangling(style, "OR"))
    ensures WsWord(env, "AND", Dangling(style, "AND")) == Ok("", ())
  {
    hide WsWord;
    ConnectiveAtEnd(env, style, "OR");
    ConnectiveAtEnd(env, style, "AND");
    NoAndAtOr(env, style.gap, style.pad);
  }

  /** After the operands of a disjunction an `OR` without operand is a final error. */
  lemma {:induction false} MoreOrsDangling(env: Env, c: bool, style: Style, es: seq<Syntax>, s: string, depth: nat)
    requires env.Valid() && style.Valid() && AndAll(es) && depth <= MAX_FILTER_DEPTH
    requires Follows(s, OrText(style, es) + Dangling(style, "OR"))
    ensures MoreOrs(env, c, s, depth).Failure?
    decreases |es|
  {
    hide ParseAnd, WsWord, SkipMultispace, Text, OrText, NoWord, Tree, Dangling;
    ConnectivesTaken(env, style);
    FollowsWord(env, "OR", s, OrText(style, es) + Dangling(style, "OR"));
    if es == [] {
      assert OrText(style, es) + Dangling(style, "OR") == Dangling(style, "OR") by { OrTextNil(style); }
      NoOperand(env, c, depth + 1);
    } else {
      var more := OrText(style, es[1..]) + Dangling(style, "OR");
      var t := Text(style, es[0]) + more;
      OrTextUnfolds(style, es, Dangling(style, "OR"));
      SpacedWordTaken(env, style.gap, "OR", t);
      NoAndBeforeOr(env, style, es[1..], Dangling(style, "OR"));
      AndParses(env, c, style, es[0], more, depth + 1);
      var f := ParseAnd(env, c, t, depth + 1);
      if f.Ok? {
        MoreOrsDangling(env, c, style, es[1..], f.rem, depth);
      }
    }
  }

  /** An `OR` after which nothing comes. */
  lemma DanglingOr(env: Env, c: bool, style: Style, e: Syntax)
    requires env.Valid() && style.Valid() && WellFormed(e)
    ensures ParseFilter(env, c, Text(style, e) + Dangling(style, "OR")).Failure?
  {
    hide ParseOr, ParseAnd, ParseNot, MoreOrs, Text, OrText, WsWord, Tree, NoWord, SkipMultispace;
    ConnectivesTaken(env, style);
    var es, first := if e.Disj? then e.parts[1..] else [], if e.Disj? then e.parts[0] else e;
    var more := OrText(style, es) + Dangling(style, "OR");
    if e.Disj? {
      DisjText(style, e.parts, Dangling(style, "OR"));
    } else {
      assert OrText(style, es) + Dangling(style, "OR") == Dangling(style, "OR") by { OrTextNil(style); }
    }
    NoAndBeforeOr(env, style, es, Dangling(style, "OR"));
    AndParses(env, c, style, first, more, 1);
    var s := Text(style, first) + more;
    OrStep(env, c, s, 0);
    AndErrorKind(env, c, s, 1);
    if ParseAnd(env, c, s, 1).Ok? {
      MoreOrsDangling(env, c, style, es, ParseAnd(env, c, s, 1).rem, 0);
    }
  }

  lemma {:induction false} MoreAndsDangling(env: Env, c: bool, style: Style, es: seq<Syntax>, s: string, depth: nat)
    requires env.Valid() && style.Valid() && UnaryAll(es) && depth <= MAX_FILTER_DEPTH
    requires Follows(s, AndText(style, es) + Dangling(style, "AND"))
    ensures MoreAnds(env, c, s, depth).Failure?
    decreases |es|
  {
    hide ParseNot, WsWord, SkipMultispace, Text, AndText, Tree, Dangling;
    ConnectivesTaken(env, style);
    FollowsWord(env, "AND", s, AndText(style, es) + Dangling(style, "AND"));
    if es == [] {
      assert AndText(style, es) + Dangling(style, "AND") == Dangling(style, "AND") by { AndTextNil(style); }
      NoOperand(env, c, depth + 1);
    } else {
      var more := AndText(style, es[1..]) + Dangling(style, "AND");
      var t := Text(style, es[0]) + more;
      AndTextUnfolds(style, es, Dangling(style, "AND"));
      SpacedWordTaken(env, style.gap, "AND", t);
      UnaryParses(env, c, style, es[0], more, depth + 1);
      var f := ParseNot(env, c, t, depth + 1);
      if f.Ok? {
        MoreAndsDangling(env, c, style, es[1..], f.rem, depth);
      }
    }
  }

  /** A conjunction, or a single operand, with an `AND` after which nothing comes. */
  lemma AndDangling(env: Env, c: bool, style: Style, e: Syntax, depth: nat)
    requires env.Valid() && style.Valid() && WellFormed(e) && !e.Disj?
    ensures ParseAnd(env, c, Text(style, e) + Dangling(style, "AND"), depth).Cut().Failure?
    ensures depth + 2 <= MAX_FILTER_DEPTH ==> ParseAnd(env, c, Text(style, e) + Dangling(style, "AND"), depth).Failure?
  {
    hide ParseAnd, ParseNot, MoreAnds, Text, AndText, WsWord, Tree, SkipMultispace;
    var es, first := if e.Conj? then e.parts[1..] else [], if e.Conj? then e.parts[0] else e;
    var more := AndText(style, es) + Dangling(style, "AND");
    if e.Conj? {
      ConjText(style, e.parts, Dangling(style, "AND"));
    } else {
      assert AndText(style, es) + Dangling(style, "AND") == Dangling(style, "AND") by { AndTextNil(style); }
    }
    UnaryParses(env, c, style, first, more, depth + 1);
    var s := Text(style, first) + more;
    AndStep(env, c, s, depth);
    if depth + 2 <= MAX_FILTER_DEPTH {
      NotErrorKind(env, c, s, depth + 1);
    }
    if depth <= MAX_FILTER_DEPTH && ParseNot(env, c, s, depth + 1).Ok? {
      MoreAndsDangling(env, c, style, es, ParseNot(env, c, s, depth + 1).rem, depth);
    }
  }

  /** The operands of a disjunction, the last of which is followed by an `AND` without operand. */
  lemma {:induction false} LastAndDangling(env: Env, c: bool, style: Style, es: seq<Syntax>, s: string, depth: nat)
    requires env.Valid() && style.Valid() && AndAll(es) && es != [] && depth <= MAX_FILTER_DEPTH
    requires Follows(s, OrText(style, es) + Dangling(style, "AND"))
    ensures MoreOrs(env, c, s, depth).Failure?
    decreases |es|
  {
    hide ParseAnd, WsWord, SkipMultispace, Text, OrText, NoWord, Tree, Dangling;
    FollowsWord(env, "OR", s, OrText(style, es) + Dangling(style, "AND"));
    var more := OrText(style, es[1..]) + Dangling(style, "AND");
    var t := Text(style, es[0]) + more;
    OrTextUnfolds(style, es, Dangling(style, "AND"));
    SpacedWordTaken(env, style.gap, "OR", t);
    if es[1..] == [] {
      assert more == Dangling(style, "AND") by { OrTextNil(style); }
      AndDangling(env, c, style, es[0], depth + 1);
    } else {
      NoAndBeforeOr(env, style, es[1..], Dangling(style, "AND"));
      AndParses(env, c, style, es[0], more, depth + 1);
      var f := ParseAnd(env, c, t, depth + 1);
      if f.Ok? {
        LastAndDangling(env, c, style, es[1..], f.rem, depth);
      }
    }
  }

  /** An `AND` after which nothing comes. */
  lemma DanglingAnd(env: Env, c: bool, style: Style, e: Syntax)
    requires env.Valid() && style.Valid() && WellFormed(e)
    ensures ParseFilter(env, c, Text(style, e) + Dangling(style, "AND")).Failure?
  {
    hide ParseOr, ParseAnd, MoreOrs, Text, OrText, Tree, NoWord;
    OrStep(env, c, Text(style, e) + Dangling(style, "AND"), 0);
    if e.Disj? {
      var es := e.parts;
      var more := OrText(style, es[1..]) + Dangling(style, "AND");
      DisjText(style, es, Dangling(style, "AND"));
      var s := Text(style, es[0]) + more;
      NoAndBeforeOr(env, style, es[1..], Dangling(style, "AND"));
      AndParses(env, c, style, es[0], more, 1);
      AndErrorKind(env, c, s, 1);
      if ParseAnd(env, c, s, 1).Ok? {
        LastAndDangling(env, c, style, es[1..], ParseAnd(env, c, s, 1).rem, 0);
      }
    } else {
      AndDangling(env, c, style, e, 1);
    }
  }

  // ---------- Reserved words and geo names ----------

  /** A reserved word where a condition should start. */
  lemma ReservedWordIsRejected(env: Env, c: bool, word: string, t: string)
    requires env.Valid() && IsLetters(word) && word in KEYWORDS && word != "" && 'A' <= word[0] <= 'Z' && word != "NOT"
    requires EndsWord(env, t)
    ensures ParseFilter(env, c, word + t) == Failure(ExpectedValue(true))
  {
    var s := word + t;
    assert s[0] == word[0];
    KeywordIsNotValue(env, word, t);
    LeafWithoutValue(env, s, true);
    LettersAreWord(env, word);
    WordEndsAt(env, word, t);
    SkipNothing(s);
    hide ParseLeaf, ParseValue, ParseNot, ParseFilter, WordLength, KEYWORDS, SkipMultispace;
    assert WsWord(env, "NOT", s).Error?;
    assert WsTag("(", s).Error?;
    NoNotStep(env, c, s, 2);
    FailurePropagates(env, c, s);
  }

  const GEO_NAMES: seq<string> := ["_geo", "_geoRadius", "_geoBoundingBox", "_geoPoint", "_geoDistance"]

  lemma GeoNamesAreNames(name: string)
    requires name in GEO_NAMES
    ensures IsName(name)
  {
  }

  /** Which geo parser stops at a name that is followed by a parenthesis. */
  lemma GeoMisused(env: Env, name: string, t: string)
    requires name in GEO_NAMES && SkipMultispace(name + t) == name + t
    requires forall tag :: WordExact(env, tag, name + t) == if tag == name then Ok(t, ()) else Error(OtherKind)
    ensures MisusedGeo(env, name + t)
  {
    hide WordExact, SkipMultispace, FloatList, PointList;
    assert (name + t)[..|name|] == name;
  }

  /** None of the geo names with an argument list can stand for a value, whatever the arguments are. */
  lemma GeoIsNotAValue(env: Env, name: string, t: string)
    requires env.Valid() && name in GEO_NAMES && t != "" && t[0] == '('
    ensures ParseValue(env, name + t) == Failure(OtherKind)
  {
    GeoNamesAreNames(name);
    hide GEO_NAMES, IsName, WordExact, SkipMultispace, SkipWhitespace, RawValue, MisusedGeo;
    NameTaken(env, name, t);
    GeoMisused(env, name, t);
  }

  lemma NoGeoFilter(env: Env, name: string, s: string)
    requires name != "_geoRadius" && name != "_geoBoundingBox" && SkipMultispace(s) == s
    requires forall tag :: WordExact(env, tag, s).Ok? ==> tag == name
    ensures ParseGeoRadius(env, s).Error? && ParseGeoBoundingBox(env, s).Error?
  {
    hide WordExact, SkipMultispace, FloatList, PointList;
  }

  /** `_geo`, `_geoPoint` and `_geoDistance` are no filters either. */
  lemma ReservedGeoIsNotAFilter(env: Env, name: string, t: string)
    requires env.Valid() && name in GEO_NAMES && name != "_geoRadius" && name != "_geoBoundingBox"
    requires t != "" && t[0] == '('
    ensures ParseLeaf(env, name + t) == Failure(OtherKind)
  {
    var s := name + t;
    GeoNamesAreNames(name);
    hide GEO_NAMES, IsName, WordExact, SkipMultispace, ParseValue, ParseGeoRadius, ParseGeoBoundingBox, ParseLeaf;
    NameTaken(env, name, t);
    GeoIsNotAValue(env, name, t);
    NoGeoFilter(env, name, s);
    FirstAlternative(env, s);
  }
}

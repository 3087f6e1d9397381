/**
 Printing conditions and reading them back through the ordered alternatives of `parse_primary`
 (crates/filter-parser/src/condition.rs and lib.rs).
 */
module FilterPrinter {
  import opened FilterSyntax
  import opened FilterLexer
  import opened FilterQuoting
  import opened FilterGrammar
  import opened FilterGeo
  import opened FilterParser

  // ---------- Text of a leaf ----------

  predicate IsGap(gap: string) {
    gap != "" && IsSpaces(gap)
  }

  /**
   How a filter is laid out: the quote around values, the spaces where some are needed, the spaces
   where none are needed, and whether lists end in a comma.
   */
  datatype Style = Style(quote: char, gap: string, pad: string, comma: bool) {
    predicate Valid() {
      IsQuote(quote) && IsGap(gap) && IsSpaces(pad)
    }
  }

  /** Words separated by spaces. */
  function Phrase(gap: string, words: seq<string>): string {
    if words == [] then "" else if |words| == 1 then words[0] else words[0] + (gap + Phrase(gap, words[1..]))
  }

  predicate IsComparison(op: Condition) {
    || op.GreaterThan? || op.GreaterThanOrEqual? || op.Equal? || op.NotEqual?
    || op.LowerThan? || op.LowerThanOrEqual?
  }

  function ComparisonText(op: Condition): string
    requires IsComparison(op)
  {
    match op
    case GreaterThan(_) => ">"
    case GreaterThanOrEqual(_) => ">="
    case Equal(_) => "="
    case NotEqual(_) => "!="
    case LowerThan(_) => "<"
    case LowerThanOrEqual(_) => "<="
  }

  predicate HasPhrase(op: Condition) {
    op.Null? || op.Empty? || op.Exists? || op.Contains? || op.StartsWith?
  }

  function PhraseOf(negated: bool, op: Condition): seq<string>
    requires HasPhrase(op)
  {
    match op
    case Null => if negated then ["IS", "NOT", "NULL"] else ["IS", "NULL"]
    case Empty => if negated then ["IS", "NOT", "EMPTY"] else ["IS", "EMPTY"]
    case Exists => if negated then ["NOT", "EXISTS"] else ["EXISTS"]
    case Contains(_) => if negated then ["NOT", "CONTAINS"] else ["CONTAINS"]
    case StartsWith(_) => if negated then ["NOT", "STARTS WITH"] else ["STARTS WITH"]
  }

  /** The leaves and their forms: only some have a negated form; geo filters are about floats. */
  predicate Printable(negated: bool, leaf: Filter) {
    if IsGeo(leaf) then !negated && GeoArguments(leaf)
    else match leaf
      case Condition(_, op) => negated ==> HasPhrase(op)
      case In(_, _) => true
      case _ => false
  }

  /** The values of a list after the first one, and what follows the list. */
  function MoreListText(style: Style, els: seq<string>, tail: string): string {
    if els == [] then if style.comma then style.pad + ("," + tail) else tail
    else style.pad + ("," + (style.pad + (Quote(style.quote, els[0]) + MoreListText(style, els[1..], tail))))
  }

  function ListText(style: Style, els: seq<string>, tail: string): string {
    if els == [] then tail else Quote(style.quote, els[0]) + MoreListText(style, els[1..], tail)
  }

  /** `IN` with its list, and what follows. */
  function InText(style: Style, els: seq<string>, rest: string): string {
    "IN" + (style.pad + ("[" + (style.pad + ListText(style, els, style.pad + ("]" + rest)))))
  }

  /** What follows the field name. */
  function Body(style: Style, negated: bool, leaf: Filter): string
    requires Printable(negated, leaf) && !IsGeo(leaf)
  {
    match leaf
    case In(_, els) => (if negated then "NOT" + style.gap else "") + InText(style, els, "")
    case Condition(_, op) =>
      if IsComparison(op) then ComparisonText(op) + (style.pad + Quote(style.quote, op.value))
      else if op.Between? then
        Quote(style.quote, op.from) + (style.pad + ("TO" + (style.gap + Quote(style.quote, op.to))))
      else if op.Contains? || op.StartsWith? then
        Phrase(style.gap, PhraseOf(negated, op)) + (style.pad + Quote(style.quote, op.word))
      else Phrase(style.gap, PhraseOf(negated, op))
  }

  function LeafText(style: Style, negated: bool, leaf: Filter): string
    requires Printable(negated, leaf)
  {
    if IsGeo(leaf) then GeoText(style.pad, leaf)
    else Quote(style.quote, leaf.fid) + (style.pad + Body(style, negated, leaf))
  }

  function LeafTree(negated: bool, leaf: Filter): Filter {
    if negated then Not(leaf) else leaf
  }

  /** A parser may or may not have taken the spaces in front of what follows. */
  predicate Follows(rem: string, rest: string) {
    rem == rest || rem == SkipMultispace(rest)
  }

  ghost predicate Reads(r: IResult<Filter>, rest: string, f: Filter) {
    r.Ok? && r.out == f && Follows(r.rem, rest)
  }

  // ---------- Concatenation ----------

  lemma Assoc(a: string, b: string, c: string)
    ensures a + b + c == a + (b + c)
  {
  }

  // ---------- Words and phrases ----------

  lemma WordMismatch(env: Env, tag: string, s: string, j: nat)
    requires j < |tag| && j < |s| && tag[j] != s[j]
    ensures WordExact(env, tag, s).Error?
  {
  }

  predicate IsLetters(w: string) {
    forall i :: 0 <= i < |w| ==> IsAsciiAlphanumeric(w[i])
  }

  /** The word is not continued. */
  predicate EndsWord(env: Env, t: string) {
    t == "" || !IsBareChar(env, t[0])
  }

  /** Made of characters that a value without quotes may have. */
  predicate IsWord(env: Env, w: string) {
    forall i :: 0 <= i < |w| ==> IsBareChar(env, w[i])
  }

  lemma LettersAreWord(env: Env, w: string)
    requires env.Valid() && IsLetters(w)
    ensures IsWord(env, w)
  {
    forall i | 0 <= i < |w| ensures IsBareChar(env, w[i]) {
      assert w[i] as int < 128;
      assert w[i] in env.alnum;
    }
  }

  lemma {:induction false} WordEndsAt(env: Env, w: string, t: string)
    requires IsWord(env, w) && EndsWord(env, t)
    ensures WordLength(env, w + t) == |w|
    ensures (w + t)[..|w|] == w && (w + t)[|w|..] == t
  {
    if w == "" {
      assert w + t == t;
    } else {
      assert (w + t)[1..] == w[1..] + t;
      WordEndsAt(env, w[1..], t);
    }
  }

  predicate AreWords(words: seq<string>) {
    forall i :: 0 <= i < |words| ==> words[i] != "" && !IsMultispace(words[i][0])
  }

  lemma PhraseUnfolds(gap: string, words: seq<string>, t: string)
    requires |words| > 1
    ensures Phrase(gap, words) + t == words[0] + (gap + (Phrase(gap, words[1..]) + t))
  {
    var more := Phrase(gap, words[1..]);
    assert Phrase(gap, words) == words[0] + (gap + more);
    hide Phrase;
    Assoc(words[0], gap + more, t);
    Assoc(gap, more, t);
  }

  lemma FirstTagTaken(tags: seq<string>, gap: string, s: string)
    requires |tags| > 1 && IsGap(gap) && s != "" && !IsMultispace(s[0])
    ensures Tags(tags, tags[0] + (gap + s)) == Tags(tags[1..], s)
  {
    TagTaken(tags[0], gap + s);
    GapTaken(gap, s);
    SkipNothing(s);
    hide Tag, Multispace1;
  }

  lemma {:induction false} PhraseParses(gap: string, words: seq<string>, t: string)
    requires IsGap(gap) && words != [] && AreWords(words)
    ensures Tags(words, Phrase(gap, words) + t) == Ok(t, ())
  {
    if |words| == 1 {
      TagTaken(words[0], t);
    } else {
      var more := Phrase(gap, words[1..]) + t;
      PhraseUnfolds(gap, words, t);
      PhraseStarts(gap, words[1..], t);
      PhraseParses(gap, words[1..], t);
      hide Phrase, Tags;
      assert more[0] == words[1][0];
      FirstTagTaken(words, gap, more);
    }
  }

  lemma PhraseStarts(gap: string, words: seq<string>, t: string)
    requires words != [] && words[0] != ""
    ensures words[0] <= Phrase(gap, words) + t
  {
  }

  /** Two phrases that share `k` words and then differ at a character. */
  lemma {:induction false} PhraseMismatch(gap: string, wanted: seq<string>, words: seq<string>, t: string, k: nat,
                                          j: nat)
    requires IsGap(gap) && AreWords(words)
    requires k < |wanted| && k < |words| && wanted[..k] == words[..k]
    requires j < |wanted[k]| && j < |words[k]| && wanted[k][j] != words[k][j]
    ensures Tags(wanted, Phrase(gap, words) + t).Error?
    decreases k
  {
    var s := Phrase(gap, words) + t;
    PhraseStarts(gap, words, t);
    if k == 0 {
      assert s[j] == words[0][j];
    } else {
      assert wanted[0] == wanted[..k][0] == words[..k][0] == words[0];
      var more := Phrase(gap, words[1..]) + t;
      PhraseUnfolds(gap, words, t);
      assert wanted[1..][..k-1] == wanted[..k][1..];
      assert words[1..][..k-1] == words[..k][1..];
      PhraseStarts(gap, words[1..], t);
      hide Phrase, Tags;
      assert more[0] == words[1][0];
      FirstTagTaken(wanted, gap, more);
      PhraseMismatch(gap, wanted[1..], words[1..], t, k - 1, j);
    }
  }

  /** A phrase cannot start where the first character differs. */
  lemma FirstCharMismatch(wanted: seq<string>, s: string)
    requires wanted != [] && wanted[0] != "" && s != "" && wanted[0][0] != s[0]
    ensures Tags(wanted, s).Error?
  {
  }

  // ---------- Values ----------

  /** White space in front of a value makes no difference. */
  lemma ValueAfterSpaces(env: Env, sp: string, s: string)
    requires IsSpaces(sp)
    ensures ParseValue(env, sp + s) == ParseValue(env, s)
  {
    hide SkipWhitespace, MisusedGeo, RawValue, SkipMultispace;
    SkipSpaces(sp, s);
  }

  lemma QuotedAfterSpaces(env: Env, style: Style, sp: string, v: string, rest: string)
    requires env.Valid() && style.Valid() && IsSpaces(sp)
    ensures ParseValue(env, sp + (Quote(style.quote, v) + rest)) == Ok(SkipMultispace(rest), v)
  {
    hide ParseValue, SkipMultispace, Quote;
    ValueAfterSpaces(env, sp, Quote(style.quote, v) + rest);
    QuotedValueRoundTrip(env, style.quote, v, rest);
  }

  lemma NotGeo(env: Env, s: string)
    requires s != "" && !IsMultispace(s[0]) && s[0] != '_'
    ensures !MisusedGeo(env, s)
  {
    hide FloatList, PointList, SkipMultispace;
    SkipNothing(s);
    WordMismatch(env, "_geoRadius", s, 0);
    WordMismatch(env, "_geoBoundingBox", s, 0);
    WordMismatch(env, "_geo", s, 0);
    hide WordExact;
  }

  lemma {:induction false} NothingToUnescape(w: string)
    requires forall i :: 0 <= i < |w| ==> w[i] != '\\'
    ensures DoubleBackslashes(w) == w
  {
    if w != "" {
      NothingToUnescape(w[1..]);
    }
  }

  /** What the characters of a word are not. */
  lemma WordCharacter(env: Env, c: char)
    requires env.Valid() && IsBareChar(env, c)
    ensures !IsWhitespace(c) && c != '\\' && !IsQuote(c)
  {
    assert c as int < 128 ==> (c in env.alnum <==> IsAsciiAlphanumeric(c));
  }

  /**
   A bare word is read back as it is, whatever ends it, unless it is a keyword; a keyword is not a
   value, and not a final error.
   */
  lemma BareValueIff(env: Env, w: string, t: string)
    requires env.Valid() && w != "" && IsWord(env, w) && w[0] != '_' && EndsWord(env, t)
    ensures ParseValue(env, w + t) == if IsReserved(w) then Error(ExpectedValue(true)) else Ok(SkipMultispace(t), w)
  {
    ReservedAreKeywords(w);
    hide MisusedGeo, WordLength, KEYWORDS, IsReserved;
    var s := w + t;
    assert s[0] == w[0];
    WordEndsAt(env, w, t);
    WordCharacter(env, w[0]);
    assert SkipWhitespace(s) == s;
    NotGeo(env, s);
    forall i | 0 <= i < |w| ensures w[i] != '\\' {
      WordCharacter(env, w[i]);
    }
    NothingToUnescape(w);
    assert env.unescape(DoubleBackslashes(w)) == Unescaped(w);
    assert RawValue(env, s) == if w in KEYWORDS then Error(ReservedKeyword) else Ok(t, w);
    hide RawValue, SkipMultispace, SkipWhitespace;
  }

  /** Apart from the geo names, the words that cannot stand for a value are the keywords. */
  lemma ReservedAreKeywords(w: string)
    requires w != "" && w[0] != '_'
    ensures IsReserved(w) <==> w in KEYWORDS
  {
    assert KEYWORDS[..12] == ["AND", "OR", "IN", "NOT", "TO", "EXISTS", "IS", "NULL", "EMPTY", "CONTAINS", "STARTS",
      "WITH"];
    assert KEYWORDS[12..] == ["_geoRadius", "_geoBoundingBox"];
    assert KEYWORDS == KEYWORDS[..12] + KEYWORDS[12..];
    assert w in KEYWORDS <==> w in KEYWORDS[..12] || w in KEYWORDS[12..];
  }

  /** A keyword is not a value, and not a final error. */
  lemma KeywordIsNotValue(env: Env, w: string, t: string)
    requires env.Valid() && IsLetters(w) && w in KEYWORDS && w != "" && 'A' <= w[0] <= 'Z' && EndsWord(env, t)
    ensures ParseValue(env, w + t) == Error(ExpectedValue(true))
  {
    LettersAreWord(env, w);
    ReservedAreKeywords(w);
    hide KEYWORDS, ParseValue, IsReserved;
    BareValueIff(env, w, t);
  }

  // ---------- Lists ----------

  /** What comes after a list: the closing bracket, with spaces in front. */
  predicate Closes(tail: string, rest: string) {
    SkipMultispace(tail) == "]" + rest
  }

  lemma ListEnd(pad: string, rest: string)
    requires IsSpaces(pad)
    ensures Closes(pad + ("]" + rest), rest)
  {
    SkipTo(pad, "]" + rest);
  }

  lemma NoValueAtBracket(env: Env, rest: string)
    requires env.Valid()
    ensures ParseValue(env, "]" + rest).Error?
  {
    var s := "]" + rest;
    assert s[0] !in env.alnum;
    assert SkipWhitespace(s) == s && SkipMultispace(s) == s;
    assert WordLength(env, s) == 0;
    hide FloatList, PointList;
  }

  /** A comma is taken with the spaces after it. */
  lemma CommaTaken(t: string)
    ensures WsTag(",", "," + t) == Ok(SkipMultispace(t), ())
  {
    SkipNothing("," + t);
    TagTaken(",", t);
    hide SkipMultispace, Tag;
  }

  lemma NoCommaAtBracket(rest: string)
    ensures WsTag(",", "]" + rest).Error?
  {
    SkipNothing("]" + rest);
    hide SkipMultispace;
  }

  /** The list from its first comma on, once the spaces in front of it are gone. */
  lemma MoreListStarts(style: Style, els: seq<string>, tail: string, rest: string)
    requires style.Valid() && Closes(tail, rest)
    ensures SkipMultispace(MoreListText(style, els, tail)) ==
            if els != [] then
              "," + (style.pad + (Quote(style.quote, els[0]) + MoreListText(style, els[1..], tail)))
            else if style.comma then "," + tail
            else "]" + rest
  {
    hide Quote, SkipMultispace;
    if els != [] {
      SkipTo(style.pad, "," + (style.pad + (Quote(style.quote, els[0]) + MoreListText(style, els[1..], tail))));
    } else if style.comma {
      SkipTo(style.pad, "," + tail);
    }
  }

  lemma {:induction false} MoreValuesParse(env: Env, style: Style, els: seq<string>, tail: string, rest: string)
    requires env.Valid() && style.Valid() && Closes(tail, rest)
    ensures MoreValues(env, SkipMultispace(MoreListText(style, els, tail))) ==
            Ok(if style.comma then "," + tail else "]" + rest, els)
    decreases |els|
  {
    hide ParseValue, Quote, MoreListText, SkipMultispace, WsTag;
    MoreListStarts(style, els, tail, rest);
    if els == [] {
      if style.comma {
        CommaTaken(tail);
        NoValueAtBracket(env, rest);
      } else {
        NoCommaAtBracket(rest);
      }
    } else {
      var more := MoreListText(style, els[1..], tail);
      var value := Quote(style.quote, els[0]) + more;
      CommaTaken(style.pad + value);
      assert value[0] == style.quote;
      SkipTo(style.pad, value);
      QuotedValueRoundTrip(env, style.quote, els[0], more);
      MoreValuesParse(env, style, els[1..], tail, rest);
      assert [els[0]] + els[1..] == els;
    }
  }

  /** A list of values, after the opening bracket and any spaces, is read up to its closing bracket. */
  lemma ValueListParses(env: Env, style: Style, els: seq<string>, tail: string, rest: string)
    requires env.Valid() && style.Valid() && Closes(tail, rest)
    ensures var r := ParseValueList(env, style.pad + ListText(style, els, tail));
            r.Ok? && r.out == els && Closes(r.rem, rest)
  {
    hide ParseValue, Quote, MoreValues, MoreListText, SkipMultispace, WsTag;
    if els == [] {
      SkipSpaces(style.pad, tail);
      BlankBracket(env, style.pad + tail, rest);
    } else {
      var more := MoreListText(style, els[1..], tail);
      QuotedAfterSpaces(env, style, style.pad, els[0], more);
      MoreValuesParse(env, style, els[1..], tail, rest);
      assert [els[0]] + els[1..] == els;
      CommaTaken(tail);
      NoCommaAtBracket(rest);
      SkipNothing("]" + rest);
    }
  }

  lemma BlankBracket(env: Env, s: string, rest: string)
    requires env.Valid() && Closes(s, rest)
    ensures ParseValue(env, s).Error?
  {
    LeadingSpaces(s);
    NoValueAtBracket(env, rest);
    hide ParseValue, SkipMultispace;
    var sp := s[..|s| - |SkipMultispace(s)|];
    ValueAfterSpaces(env, sp, "]" + rest);
  }

  /** What is skipped are spaces. */
  lemma {:induction false} LeadingSpaces(s: string)
    ensures var u := SkipMultispace(s); var sp := s[..|s| - |u|]; IsSpaces(sp) && s == sp + u
  {
    if s != "" && IsMultispace(s[0]) {
      LeadingSpaces(s[1..]);
      var u := SkipMultispace(s);
      var sp := s[1..][..|s| - 1 - |u|];
      assert s[..|s| - |u|] == [s[0]] + sp;
      assert s == [s[0]] + s[1..];
    } else {
      assert s[..0] == "";
    }
  }

  lemma InTaken(env: Env, pad: string, list: string)
    requires env.Valid() && IsSpaces(pad)
    ensures WsWord(env, "IN", "IN" + (pad + ("[" + list))) == Ok("[" + list, ())
    ensures Tag("[", "[" + list) == Ok(list, ())
  {
    var t := "[" + list;
    SpacedEndsWord(env, pad, t);
    LettersAreWord(env, "IN");
    WordEndsAt(env, "IN", pad + t);
    SkipNothing("IN" + (pad + t));
    SkipTo(pad, t);
    TagTaken("[", list);
    hide WordLength, SkipMultispace, Tag;
  }

  /** Spaces end a word, and so does what cannot continue it. */
  lemma SpacedEndsWord(env: Env, pad: string, t: string)
    requires env.Valid() && IsSpaces(pad)
    requires pad != "" || t == "" || t[0] == '[' || t[0] == '(' || IsQuote(t[0]) || IsMultispace(t[0])
    ensures EndsWord(env, pad + t)
  {
    if pad == "" {
      assert pad + t == t;
    } else {
      assert (pad + t)[0] == pad[0];
    }
    if pad + t != "" {
      var c := (pad + t)[0];
      assert c as int < 128 ==> (c in env.alnum <==> IsAsciiAlphanumeric(c));
    }
  }

  lemma BracketTaken(s: string, rest: string)
    requires Closes(s, rest)
    ensures WsTag("]", s) == Ok(SkipMultispace(rest), ())
  {
    TagTaken("]", rest);
    hide SkipMultispace, Tag;
  }

  /** `IN` and its list are read. */
  lemma InBodyParses(env: Env, style: Style, els: seq<string>, rest: string)
    requires env.Valid() && style.Valid()
    ensures ParseInBody(env, InText(style, els, rest)) == Ok(SkipMultispace(rest), els)
  {
    hide ParseValueList, ListText, WsWord, WsTag, Tag, SkipMultispace, Closes;
    var tail := style.pad + ("]" + rest);
    var list := style.pad + ListText(style, els, tail);
    ListEnd(style.pad, rest);
    InTaken(env, style.pad, list);
    ValueListParses(env, style, els, tail, rest);
    BracketTaken(ParseValueList(env, list).rem, rest);
  }

  lemma InAfterSpaces(env: Env, sp: string, s: string)
    requires IsSpaces(sp)
    ensures ParseInBody(env, sp + s) == ParseInBody(env, s)
  {
    SkipSpaces(sp, s);
    hide ParseValueList, WsTag, Tag, SkipMultispace, WordExact;
  }

  // ---------- The alternatives for a leaf ----------

  /** The field name is read, nothing else can start like a quoted name. */
  lemma FieldParses(env: Env, style: Style, negated: bool, leaf: Filter, rest: string)
    requires env.Valid() && style.Valid() && Printable(negated, leaf) && !IsGeo(leaf)
    ensures var s := LeafText(style, negated, leaf) + rest;
            && ParseValue(env, s) == Ok(Body(style, negated, leaf) + rest, leaf.fid)
            && ParseGeoRadius(env, s).Error? && ParseGeoBoundingBox(env, s).Error?
            && WsWord(env, "NOT", s).Error? && WsTag("(", s).Error?
  {
    hide ParseValue, Body, Quote, ParseGeoRadius, ParseGeoBoundingBox, WsWord, WsTag, SkipMultispace, MisusedGeo;
    var body := Body(style, negated, leaf);
    BodyStarts(style, negated, leaf);
    var s := LeafText(style, negated, leaf) + rest;
    Assoc(Quote(style.quote, leaf.fid), style.pad + body, rest);
    Assoc(style.pad, body, rest);
    QuotedValueRoundTrip(env, style.quote, leaf.fid, style.pad + (body + rest));
    assert (body + rest)[0] == body[0];
    SkipTo(style.pad, body + rest);
    assert s[0] == style.quote;
    QuoteIsNotGeo(env, s);
    QuoteIsNotKeyword(env, s);
  }

  lemma QuoteIsNotKeyword(env: Env, s: string)
    requires s != "" && IsQuote(s[0])
    ensures WsWord(env, "NOT", s).Error? && WsTag("(", s).Error?
  {
  }

  lemma BodyStarts(style: Style, negated: bool, leaf: Filter)
    requires style.Valid() && Printable(negated, leaf) && !IsGeo(leaf)
    ensures var body := Body(style, negated, leaf); body != "" && !IsMultispace(body[0])
  {
    hide Quote, ListText;
  }

  /** Ordered choice: the first alternative that does not end in a backtrackable error decides. */
  lemma FirstAlternative(env: Env, s: string)
    requires ParseGeoRadius(env, s).Error? && ParseGeoBoundingBox(env, s).Error?
    ensures ParseLeaf(env, s) ==
            if !ParseIn(env, s).Error? then ParseIn(env, s)
            else if !ParseNotIn(env, s).Error? then ParseNotIn(env, s)
            else if !ParseCondition(env, s).Error? then ParseCondition(env, s)
            else if !ParsePhraseLeaf(env, s).Error? then ParsePhraseLeaf(env, s)
            else if !ParseTo(env, s).Error? then ParseTo(env, s)
            else if !ParseTextLeaf(env, s).Error? then ParseTextLeaf(env, s)
            else ParseLeafError(env, s)
  {
  }

  /** After the field, neither `IN` nor `NOT IN` follows. */
  lemma NoIn(env: Env, s: string, b: string, fid: string)
    requires ParseValue(env, s) == Ok(b, fid)
    requires WsWord(env, "IN", b).Error?
    requires WordExact(env, "NOT", b).Error? || WsWord(env, "IN", WordExact(env, "NOT", b).rem).Error?
    ensures ParseIn(env, s).Error? && ParseNotIn(env, s).Error?
  {
  }

  lemma NoWordIn(env: Env, b: string)
    requires b != "" && !IsMultispace(b[0])
    requires b[0] != 'I' || (|b| > 1 && b[1] == 'S')
    ensures WsWord(env, "IN", b).Error?
  {
    SkipNothing(b);
    WordMismatch(env, "IN", b, if b[0] == 'I' then 1 else 0);
  }

  lemma OperatorParses(op: Condition, v: string)
    requires IsComparison(op) && v != "" && v[0] != '='
    ensures ComparisonOperator(ComparisonText(op) + v) == Ok(v, ComparisonText(op))
  {
    var t := ComparisonText(op);
    var s := t + v;
    assert s[|t|..] == v;
    assert s[0] == t[0] && s[1] == if |t| == 1 then v[0] else '=';
    TwoCharacters("<=", s);
    TwoCharacters(">=", s);
    TwoCharacters("!=", s);
  }

  lemma TwoCharacters(t: string, s: string)
    requires |t| == 2 && |s| >= 2
    ensures t <= s <==> t[0] == s[0] && t[1] == s[1]
  {
  }

  lemma NoOperator(env: Env, s: string, b: string, fid: string)
    requires ParseValue(env, s) == Ok(b, fid)
    requires b != "" && b[0] !in {'<', '>', '!', '='}
    ensures ParseCondition(env, s).Error?
  {
    hide ParseValue;
  }

  lemma ComparisonRebuilt(op: Condition)
    requires IsComparison(op)
    ensures Comparison(ComparisonText(op), op.value) == op
    ensures ComparisonText(op) != "" && ComparisonText(op)[0] in {'<', '>', '!', '='}
  {
  }

  lemma ConditionParses(env: Env, s: string, b: string, fid: string, style: Style, op: Condition, rest: string)
    requires env.Valid() && style.Valid() && IsComparison(op)
    requires ParseValue(env, s) == Ok(b, fid)
    requires b == ComparisonText(op) + (style.pad + (Quote(style.quote, op.value) + rest))
    ensures ParseCondition(env, s) == Ok(SkipMultispace(rest), Condition(fid, op))
  {
    hide ParseValue, Quote, ComparisonOperator, ComparisonText, Comparison;
    var value := Quote(style.quote, op.value) + rest;
    QuotedAfterSpaces(env, style, style.pad, op.value, rest);
    PaddedStart(style, value);
    OperatorParses(op, style.pad + value);
    ComparisonRebuilt(op);
  }

  lemma PaddedStart(style: Style, value: string)
    requires style.Valid() && value != "" && value[0] == style.quote
    ensures var t := style.pad + value; t != "" && (IsMultispace(t[0]) || IsQuote(t[0]))
  {
    assert (style.pad + value)[0] == if style.pad == "" then value[0] else style.pad[0];
  }

  lemma ComparisonBody(style: Style, fid: string, op: Condition, rest: string)
    requires IsComparison(op)
    ensures Body(style, false, Condition(fid, op)) + rest ==
            ComparisonText(op) + (style.pad + (Quote(style.quote, op.value) + rest))
  {
    hide Quote;
    Assoc(ComparisonText(op), style.pad + Quote(style.quote, op.value), rest);
    Assoc(style.pad, Quote(style.quote, op.value), rest);
  }

  lemma ComparisonLeafParses(env: Env, style: Style, fid: string, op: Condition, rest: string)
    requires env.Valid() && style.Valid() && IsComparison(op)
    ensures Reads(ParseLeaf(env, LeafText(style, false, Condition(fid, op)) + rest), rest, Condition(fid, op))
  {
    hide ParseValue, LeafText, Body, Quote, ParseGeoRadius, ParseGeoBoundingBox, ParseLeaf, ParseIn, ParseNotIn,
      ParseCondition, ParsePhraseLeaf, ParseTo, ParseTextLeaf, ParseLeafError, ComparisonText, WsWord, WordExact,
      WsTag;
    var leaf := Condition(fid, op);
    var s := LeafText(style, false, leaf) + rest;
    var b := Body(style, false, leaf) + rest;
    FieldParses(env, style, false, leaf, rest);
    ComparisonBody(style, fid, op, rest);
    ComparisonRebuilt(op);
    ConditionParses(env, s, b, fid, style, op, rest);
    assert b[0] == ComparisonText(op)[0];
    NoWordIn(env, b);
    WordMismatch(env, "NOT", b, 0);
    NoIn(env, s, b, fid);
    FirstAlternative(env, s);
  }

  const PHRASES: seq<seq<string>> := [["IS", "NULL"], ["IS", "NOT", "NULL"], ["IS", "EMPTY"],
    ["IS", "NOT", "EMPTY"], ["EXISTS"], ["NOT", "EXISTS"], ["CONTAINS"], ["NOT", "CONTAINS"],
    ["STARTS WITH"], ["NOT", "STARTS WITH"]]

  predicate IsIsPhrase(words: seq<string>) {
    words in [["IS", "NULL"], ["IS", "NOT", "NULL"], ["IS", "EMPTY"], ["IS", "NOT", "EMPTY"]]
  }

  lemma IsPhrasesDiffer(gap: string, wanted: seq<string>, words: seq<string>, t: string)
    requires IsGap(gap) && IsIsPhrase(wanted) && IsIsPhrase(words) && wanted != words
    ensures Tags(wanted, Phrase(gap, words) + t).Error?
  {
    hide Tags, Phrase;
    if |wanted| == |words| {
      PhraseMismatch(gap, wanted, words, t, |words| - 1, 0);
    } else {
      PhraseMismatch(gap, wanted, words, t, 1, 1);
    }
  }

  lemma NotPhrasesDiffer(gap: string, wanted: seq<string>, words: seq<string>, t: string)
    requires IsGap(gap) && |wanted| == |words| == 2 && wanted[0] == words[0] == "NOT"
    requires wanted[1] != "" && words[1] != "" && wanted[1][0] != words[1][0] && !IsMultispace(words[1][0])
    ensures Tags(wanted, Phrase(gap, words) + t).Error?
  {
    assert wanted[..1] == words[..1];
    PhraseMismatch(gap, wanted, words, t, 1, 0);
  }

  /** No phrase can be taken for another one, whatever follows. */
  lemma PhrasesDiffer(gap: string, wanted: seq<string>, words: seq<string>, t: string)
    requires IsGap(gap) && wanted in PHRASES && words in PHRASES && wanted != words
    ensures Tags(wanted, Phrase(gap, words) + t).Error?
  {
    hide Tags, Phrase;
    if wanted[0][0] != words[0][0] {
      PhraseStarts(gap, words, t);
      FirstCharMismatch(wanted, Phrase(gap, words) + t);
    } else if wanted[0][0] == 'I' {
      IsPhrasesDiffer(gap, wanted, words, t);
    } else {
      NotPhrasesDiffer(gap, wanted, words, t);
    }
  }

  lemma PhraseIsKnown(gap: string, negated: bool, op: Condition, t: string)
    requires IsGap(gap) && HasPhrase(op)
    ensures var words := PhraseOf(negated, op); words in PHRASES && Tags(words, Phrase(gap, words) + t) == Ok(t, ())
  {
    hide Tags, Phrase;
    var words := PhraseOf(negated, op);
    PhraseParses(gap, words, t);
    var i := match op
      case Null => 0 case Empty => 2 case Exists => 4 case Contains(_) => 6 case StartsWith(_) => 8;
    assert PHRASES[if negated then i + 1 else i] == words;
  }

  /** The six phrases that end a condition, once the field is read. */
  lemma PhraseAlternatives(env: Env, s: string, b: string, fid: string)
    requires ParseValue(env, s) == Ok(b, fid)
    ensures ParsePhraseLeaf(env, s) ==
            if Tags(["IS", "NULL"], b).Ok? then Ok(Tags(["IS", "NULL"], b).rem, Condition(fid, Null))
            else if Tags(["IS", "NOT", "NULL"], b).Ok? then
              Ok(Tags(["IS", "NOT", "NULL"], b).rem, Not(Condition(fid, Null)))
            else if Tags(["IS", "EMPTY"], b).Ok? then Ok(Tags(["IS", "EMPTY"], b).rem, Condition(fid, Empty))
            else if Tags(["IS", "NOT", "EMPTY"], b).Ok? then
              Ok(Tags(["IS", "NOT", "EMPTY"], b).rem, Not(Condition(fid, Empty)))
            else if Tags(["EXISTS"], b).Ok? then Ok(Tags(["EXISTS"], b).rem, Condition(fid, Exists))
            else if Tags(["NOT", "EXISTS"], b).Ok? then
              Ok(Tags(["NOT", "EXISTS"], b).rem, Not(Condition(fid, Exists)))
            else Error(OtherKind)
  {
  }

  /** A phrase after the field rules out `IN`, `NOT IN` and the comparisons. */
  lemma PhraseIsNotIn(env: Env, gap: string, s: string, fid: string, words: seq<string>, t: string)
    requires env.Valid() && IsGap(gap) && words in PHRASES
    requires ParseValue(env, s) == Ok(Phrase(gap, words) + t, fid)
    ensures ParseIn(env, s).Error? && ParseNotIn(env, s).Error? && ParseCondition(env, s).Error?
  {
    hide ParseValue, Phrase, WsWord, WordExact, WordLength, ParseIn, ParseNotIn, ParseCondition;
    var b := Phrase(gap, words) + t;
    PhraseStarts(gap, words, t);
    assert b[0] == words[0][0] && b[1] == words[0][1];
    NoWordIn(env, b);
    if words[0] == "NOT" {
      var more := Phrase(gap, words[1..]) + t;
      PhraseStarts(gap, words[1..], t);
      NotThenPhrase(env, gap, words, t);
      assert more[0] == words[1][0];
      NoWordIn(env, more);
      WordAfterSpaces(env, "IN", gap, more);
    } else {
      WordMismatch(env, "NOT", b, 0);
    }
    NoIn(env, s, b, fid);
    NoOperator(env, s, b, fid);
  }

  lemma WordAfterSpaces(env: Env, word: string, sp: string, s: string)
    requires IsSpaces(sp)
    ensures WsWord(env, word, sp + s) == WsWord(env, word, s)
  {
    SkipSpaces(sp, s);
    hide SkipMultispace, WordExact;
  }

  lemma NotThenPhrase(env: Env, gap: string, words: seq<string>, t: string)
    requires env.Valid() && IsGap(gap) && |words| > 1 && words[0] == "NOT"
    ensures WordExact(env, "NOT", Phrase(gap, words) + t) == Ok(gap + (Phrase(gap, words[1..]) + t), ())
  {
    PhraseUnfolds(gap, words, t);
    hide Phrase, WordLength;
    NotBeforeGap(env, gap, Phrase(gap, words[1..]) + t);
  }

  lemma NotBeforeGap(env: Env, gap: string, t: string)
    requires env.Valid() && IsGap(gap)
    ensures WordExact(env, "NOT", "NOT" + (gap + t)) == Ok(gap + t, ())
  {
    SpacedEndsWord(env, gap, t);
    LettersAreWord(env, "NOT");
    WordEndsAt(env, "NOT", gap + t);
    hide WordLength, IsWord;
  }

  /** Which of the six phrases is found, if any. */
  lemma PhraseSelected(env: Env, gap: string, s: string, fid: string, negated: bool, op: Condition, t: string)
    requires IsGap(gap) && HasPhrase(op)
    requires ParseValue(env, s) == Ok(Phrase(gap, PhraseOf(negated, op)) + t, fid)
    ensures ParsePhraseLeaf(env, s) ==
            if op.Null? || op.Empty? || op.Exists? then Ok(t, LeafTree(negated, Condition(fid, op)))
            else Error(OtherKind)
  {
    hide ParseValue, Phrase, Tags, ParsePhraseLeaf, PHRASES;
    var words := PhraseOf(negated, op);
    KnownPhrases();
    PhraseIsKnown(gap, negated, op, t);
    PhraseAlternatives(env, s, Phrase(gap, words) + t, fid);
    if op != Null || negated {
      assert words != ["IS", "NULL"] by { PhraseLastWords(negated, op); }
      PhrasesDiffer(gap, ["IS", "NULL"], words, t);
    }
    if op != Null || !negated {
      assert words != ["IS", "NOT", "NULL"] by { PhraseLastWords(negated, op); }
      PhrasesDiffer(gap, ["IS", "NOT", "NULL"], words, t);
    }
    if op != Empty || negated {
      assert words != ["IS", "EMPTY"] by { PhraseLastWords(negated, op); }
      PhrasesDiffer(gap, ["IS", "EMPTY"], words, t);
    }
    if op != Empty || !negated {
      assert words != ["IS", "NOT", "EMPTY"] by { PhraseLastWords(negated, op); }
      PhrasesDiffer(gap, ["IS", "NOT", "EMPTY"], words, t);
    }
    if op != Exists || negated {
      assert words != ["EXISTS"] by { PhraseLastWords(negated, op); }
      PhrasesDiffer(gap, ["EXISTS"], words, t);
    }
    if op != Exists || !negated {
      assert words != ["NOT", "EXISTS"] by { PhraseLastWords(negated, op); }
      PhrasesDiffer(gap, ["NOT", "EXISTS"], words, t);
    }
  }

  lemma PhraseLastWords(negated: bool, op: Condition)
    requires HasPhrase(op)
    ensures var words := PhraseOf(negated, op);
            && words != []
            && |words| == (if op.Null? || op.Empty? then 2 else 1) + (if negated then 1 else 0)
            && (words[|words| - 1][0] == 'N' <==> op.Null?)
            && (words[|words| - 1][1] == 'M' <==> op.Empty?)
            && (words[|words| - 1][1] == 'X' <==> op.Exists?)
            && (words[|words| - 1][0] == 'C' <==> op.Contains?)
            && (words[|words| - 1][0] == 'S' <==> op.StartsWith?)
  {
  }

  lemma PhraseBody(style: Style, negated: bool, fid: string, op: Condition, rest: string)
    requires HasPhrase(op)
    ensures Body(style, negated, Condition(fid, op)) + rest ==
            Phrase(style.gap, PhraseOf(negated, op)) +
            if op.Contains? || op.StartsWith? then style.pad + (Quote(style.quote, op.word) + rest) else rest
  {
    hide Quote, Phrase;
    if op.Contains? || op.StartsWith? {
      Assoc(Phrase(style.gap, PhraseOf(negated, op)), style.pad + Quote(style.quote, op.word), rest);
      Assoc(style.pad, Quote(style.quote, op.word), rest);
    }
  }

  lemma PhraseLeafParses(env: Env, style: Style, negated: bool, fid: string, op: Condition, rest: string)
    requires env.Valid() && style.Valid() && (op.Null? || op.Empty? || op.Exists?)
    ensures Reads(ParseLeaf(env, LeafText(style, negated, Condition(fid, op)) + rest), rest,
                  LeafTree(negated, Condition(fid, op)))
  {
    hide ParseValue, Body, LeafText, Phrase, PhraseOf, Tags, ParseGeoRadius, ParseGeoBoundingBox, ParseLeaf, ParseIn,
      ParseNotIn, ParseCondition, ParsePhraseLeaf, ParseTo, ParseTextLeaf,
      ParseLeafError, WsWord, PHRASES;
    var leaf := Condition(fid, op);
    var s := LeafText(style, negated, leaf) + rest;
    FieldParses(env, style, negated, leaf, rest);
    PhraseBody(style, negated, fid, op, rest);
    PhraseIsKnown(style.gap, negated, op, rest);
    PhraseIsNotIn(env, style.gap, s, fid, PhraseOf(negated, op), rest);
    PhraseSelected(env, style.gap, s, fid, negated, op, rest);
    FirstAlternative(env, s);
  }

  lemma KnownPhrases()
    ensures ["IS", "NULL"] in PHRASES && ["IS", "NOT", "NULL"] in PHRASES && ["IS", "EMPTY"] in PHRASES
    ensures ["IS", "NOT", "EMPTY"] in PHRASES && ["EXISTS"] in PHRASES && ["NOT", "EXISTS"] in PHRASES
    ensures ["CONTAINS"] in PHRASES && ["NOT", "CONTAINS"] in PHRASES
    ensures ["STARTS WITH"] in PHRASES && ["NOT", "STARTS WITH"] in PHRASES
  {
  }

  /** Which of the four text operators is found. */
  lemma TextSelected(env: Env, s: string, fid: string, negated: bool, op: Condition, style: Style, rest: string)
    requires env.Valid() && style.Valid() && (op.Contains? || op.StartsWith?)
    requires ParseValue(env, s) ==
             Ok(Phrase(style.gap, PhraseOf(negated, op)) + (style.pad + (Quote(style.quote, op.word) + rest)), fid)
    ensures ParseTextLeaf(env, s) == Ok(SkipMultispace(rest), LeafTree(negated, Condition(fid, op)))
  {
    hide ParseValue, Phrase, Tags, PHRASES, Quote;
    var gap := style.gap;
    var words := PhraseOf(negated, op);
    var t := style.pad + (Quote(style.quote, op.word) + rest);
    KnownPhrases();
    PhraseIsKnown(gap, negated, op, t);
    QuotedAfterSpaces(env, style, style.pad, op.word, rest);
    if op.StartsWith? || negated {
      assert words != ["CONTAINS"] by { PhraseLastWords(negated, op); }
      PhrasesDiffer(gap, ["CONTAINS"], words, t);
    }
    if op.StartsWith? || !negated {
      assert words != ["NOT", "CONTAINS"] by { PhraseLastWords(negated, op); }
      PhrasesDiffer(gap, ["NOT", "CONTAINS"], words, t);
    }
    if op.Contains? || negated {
      assert words != ["STARTS WITH"] by { PhraseLastWords(negated, op); }
      PhrasesDiffer(gap, ["STARTS WITH"], words, t);
    }
  }

  lemma TextLeafParses(env: Env, style: Style, negated: bool, fid: string, op: Condition, rest: string)
    requires env.Valid() && style.Valid() && (op.Contains? || op.StartsWith?)
    ensures Reads(ParseLeaf(env, LeafText(style, negated, Condition(fid, op)) + rest), rest,
                  LeafTree(negated, Condition(fid, op)))
  {
    hide ParseValue, Body, LeafText, Quote, Phrase, PhraseOf, Tags, ParseGeoRadius, ParseGeoBoundingBox, ParseLeaf,
      ParseIn, ParseNotIn, ParseCondition, ParsePhraseLeaf, ParseTo, ParseTextLeaf,
      ParseLeafError, WsWord, PHRASES;
    var leaf := Condition(fid, op);
    var s := LeafText(style, negated, leaf) + rest;
    var t := style.pad + (Quote(style.quote, op.word) + rest);
    FieldParses(env, style, negated, leaf, rest);
    PhraseBody(style, negated, fid, op, rest);
    PhraseIsKnown(style.gap, negated, op, t);
    PhraseIsNotIn(env, style.gap, s, fid, PhraseOf(negated, op), t);
    PhraseSelected(env, style.gap, s, fid, negated, op, t);
    PaddedStart(style, Quote(style.quote, op.word) + rest);
    TextIsNotTo(env, style.gap, s, fid, negated, op, t);
    TextSelected(env, s, fid, negated, op, style, rest);
    FirstAlternative(env, s);
  }

  lemma TextIsNotTo(env: Env, gap: string, s: string, fid: string, negated: bool, op: Condition, t: string)
    requires env.Valid() && IsGap(gap) && (op.Contains? || op.StartsWith?)
    requires t != "" && (IsMultispace(t[0]) || IsQuote(t[0]))
    requires ParseValue(env, s) == Ok(Phrase(gap, PhraseOf(negated, op)) + t, fid)
    ensures ParseTo(env, s).Error?
  {
    var words := PhraseOf(negated, op);
    PhraseIsNotAValue(env, gap, negated, op, t);
    hide ParseValue, Tag, Multispace1, Phrase;
  }

  lemma PhraseIsNotAValue(env: Env, gap: string, negated: bool, op: Condition, t: string)
    requires env.Valid() && IsGap(gap) && (op.Contains? || op.StartsWith?)
    requires t != "" && (IsMultispace(t[0]) || IsQuote(t[0]))
    ensures ParseValue(env, Phrase(gap, PhraseOf(negated, op)) + t).Error?
  {
    hide ParseValue, KEYWORDS;
    var words := PhraseOf(negated, op);
    if negated {
      PhraseUnfolds(gap, words, t);
      hide Phrase;
      NotIsNotAValue(env, gap, Phrase(gap, words[1..]) + t);
    } else if op.Contains? {
      assert Phrase(gap, words) == "CONTAINS";
      WordIsNotAValue(env, "CONTAINS", t);
    } else {
      assert Phrase(gap, words) == "STARTS WITH";
      assert "STARTS WITH" + t == "STARTS" + (" WITH" + t);
      hide Phrase;
      WordIsNotAValue(env, "STARTS", " WITH" + t);
    }
  }

  lemma NotIsNotAValue(env: Env, gap: string, more: string)
    requires env.Valid() && IsGap(gap)
    ensures ParseValue(env, "NOT" + (gap + more)).Error?
  {
    SpacedEndsWord(env, gap, more);
    hide ParseValue;
    KeywordIsNotValue(env, "NOT", gap + more);
  }

  lemma WordIsNotAValue(env: Env, word: string, t: string)
    requires env.Valid() && (word == "CONTAINS" || word == "STARTS")
    requires t != "" && (IsMultispace(t[0]) || IsQuote(t[0]))
    ensures ParseValue(env, word + t).Error?
  {
    assert "" + t == t;
    SpacedEndsWord(env, "", t);
    hide ParseValue;
    KeywordIsNotValue(env, word, t);
  }

  lemma BetweenBody(style: Style, fid: string, op: Condition, rest: string)
    requires op.Between?
    ensures Body(style, false, Condition(fid, op)) + rest ==
            Quote(style.quote, op.from) +
            (style.pad + ("TO" + (style.gap + (Quote(style.quote, op.to) + rest))))
  {
    hide Quote;
    var from, to := Quote(style.quote, op.from), Quote(style.quote, op.to);
    Assoc(from, style.pad + ("TO" + (style.gap + to)), rest);
    Assoc(style.pad, "TO" + (style.gap + to), rest);
    Assoc("TO", style.gap + to, rest);
    Assoc(style.gap, to, rest);
  }

  lemma BetweenLeafParses(env: Env, style: Style, fid: string, op: Condition, rest: string)
    requires env.Valid() && style.Valid() && op.Between?
    ensures Reads(ParseLeaf(env, LeafText(style, false, Condition(fid, op)) + rest), rest, Condition(fid, op))
  {
    hide ParseValue, Body, LeafText, Quote, Tags, ParseGeoRadius, ParseGeoBoundingBox, ParseLeaf, ParseIn,
      ParseNotIn, ParseCondition, ParsePhraseLeaf, ParseTo, ParseTextLeaf,
      ParseLeafError, WsWord, WordExact;
    var leaf := Condition(fid, op);
    var s := LeafText(style, false, leaf) + rest;
    var b := Body(style, false, leaf) + rest;
    FieldParses(env, style, false, leaf, rest);
    BetweenBody(style, fid, op, rest);
    assert b[0] == style.quote;
    NoWordIn(env, b);
    WordMismatch(env, "NOT", b, 0);
    NoIn(env, s, b, fid);
    NoOperator(env, s, b, fid);
    NoPhrase(b);
    PhraseAlternatives(env, s, b, fid);
    ToParses(env, s, b, fid, style, op, rest);
    FirstAlternative(env, s);
  }

  lemma NoPhrase(b: string)
    requires b != "" && IsQuote(b[0])
    ensures Tags(["IS", "NULL"], b).Error? && Tags(["IS", "NOT", "NULL"], b).Error?
    ensures Tags(["IS", "EMPTY"], b).Error? && Tags(["IS", "NOT", "EMPTY"], b).Error?
    ensures Tags(["EXISTS"], b).Error? && Tags(["NOT", "EXISTS"], b).Error?
  {
  }

  lemma ToParses(env: Env, s: string, b: string, fid: string, style: Style, op: Condition, rest: string)
    requires env.Valid() && style.Valid() && op.Between?
    requires ParseValue(env, s) == Ok(b, fid)
    requires b == Quote(style.quote, op.from) +
                  (style.pad + ("TO" + (style.gap + (Quote(style.quote, op.to) + rest))))
    ensures ParseTo(env, s) == Ok(SkipMultispace(rest), Condition(fid, op))
  {
    hide ParseValue, Quote, SkipMultispace, Tag, Multispace1;
    var value := Quote(style.quote, op.to) + rest;
    var to := "TO" + (style.gap + value);
    QuotedValueRoundTrip(env, style.quote, op.from, style.pad + to);
    SkipTo(style.pad, to);
    TagTaken("TO", style.gap + value);
    GapTaken(style.gap, value);
    assert value[0] == style.quote;
    SkipNothing(value);
    QuotedValueRoundTrip(env, style.quote, op.to, rest);
  }

  lemma {:induction false} MoreListPlus(style: Style, els: seq<string>, tail: string, rest: string)
    ensures MoreListText(style, els, tail) + rest == MoreListText(style, els, tail + rest)
    decreases |els|
  {
    hide Quote;
    if els == [] {
      if style.comma {
        Assoc(style.pad, "," + tail, rest);
        Assoc(",", tail, rest);
      }
    } else {
      MoreListPlus(style, els[1..], tail, rest);
      var value, more := Quote(style.quote, els[0]), MoreListText(style, els[1..], tail);
      Assoc(style.pad, "," + (style.pad + (value + more)), rest);
      Assoc(",", style.pad + (value + more), rest);
      Assoc(style.pad, value + more, rest);
      Assoc(value, more, rest);
    }
  }

  lemma InTextPlus(style: Style, els: seq<string>, rest: string)
    ensures InText(style, els, "") + rest == InText(style, els, rest)
  {
    hide Quote, MoreListText;
    var pad, tail := style.pad, style.pad + ("]" + "");
    var list := ListText(style, els, tail);
    if els != [] {
      MoreListPlus(style, els[1..], tail, rest);
      Assoc(Quote(style.quote, els[0]), MoreListText(style, els[1..], tail), rest);
    }
    assert tail + rest == pad + ("]" + rest);
    assert list + rest == ListText(style, els, pad + ("]" + rest));
    hide ListText;
    Assoc("IN", pad + ("[" + (pad + list)), rest);
    Assoc(pad, "[" + (pad + list), rest);
    Assoc("[", pad + list, rest);
    Assoc(pad, list, rest);
  }

  lemma InBody(style: Style, negated: bool, fid: string, els: seq<string>, rest: string)
    ensures var body := InText(style, els, rest);
            Body(style, negated, In(fid, els)) + rest == if negated then "NOT" + (style.gap + body) else body
  {
    InTextPlus(style, els, rest);
    hide InText;
    var text := InText(style, els, "");
    if negated {
      Assoc("NOT" + style.gap, text, rest);
      Assoc("NOT", style.gap, text + rest);
    } else {
      assert "" + text == text;
    }
  }

  lemma InLeafParses(env: Env, style: Style, negated: bool, fid: string, els: seq<string>, rest: string)
    requires env.Valid() && style.Valid()
    ensures Reads(ParseLeaf(env, LeafText(style, negated, In(fid, els)) + rest), rest,
                  LeafTree(negated, In(fid, els)))
  {
    hide ParseValue, Body, LeafText, InText, ParseGeoRadius, ParseGeoBoundingBox, ParseLeaf, ParseInBody,
      ParseCondition, ParsePhraseLeaf, ParseTo, ParseTextLeaf,
      ParseLeafError, WsWord, WordLength;
    var leaf := In(fid, els);
    var s := LeafText(style, negated, leaf) + rest;
    var body := InText(style, els, rest);
    FieldParses(env, style, negated, leaf, rest);
    InBody(style, negated, fid, els, rest);
    InBodyParses(env, style, els, rest);
    if negated {
      NotBeforeGap(env, style.gap, body);
      InAfterSpaces(env, style.gap, body);
      NotIsNotIn(env, "NOT" + (style.gap + body));
    }
    FirstAlternative(env, s);
  }

  lemma NotIsNotIn(env: Env, b: string)
    requires b != "" && b[0] == 'N'
    ensures ParseInBody(env, b).Error?
  {
    hide WsWord, ParseValueList;
    NoWordIn(env, b);
  }

  lemma GeoLeafParses(env: Env, style: Style, leaf: Filter, rest: string)
    requires env.Valid() && style.Valid() && IsGeo(leaf) && GeoArguments(leaf)
    ensures Reads(ParseLeaf(env, LeafText(style, false, leaf) + rest), rest, leaf)
  {
    var s := GeoText(style.pad, leaf) + rest;
    if leaf.GeoLowerThan? {
      GeoRadiusParses(env, style.pad, leaf, rest);
    } else {
      GeoBoundingBoxParses(env, style.pad, leaf, rest);
    }
    hide GeoText, ParseGeoRadius, ParseGeoBoundingBox, ParseLeaf, GeoArguments, SkipMultispace;
    GeoAlternatives(env, s);
  }

  lemma GeoAlternatives(env: Env, s: string)
    ensures ParseGeoRadius(env, s).Ok? ==> ParseLeaf(env, s) == ParseGeoRadius(env, s)
    ensures ParseGeoRadius(env, s).Error? && ParseGeoBoundingBox(env, s).Ok? ==>
              ParseLeaf(env, s) == ParseGeoBoundingBox(env, s)
  {
    hide ParseGeoRadius, ParseGeoBoundingBox, ParseIn, ParseNotIn, ParseCondition, ParsePhraseLeaf, ParseTo,
      ParseTextLeaf, ParseLeafError;
  }

  /** A leaf starts neither with `NOT` nor with a parenthesis. */
  lemma LeafIsPrimary(env: Env, style: Style, negated: bool, leaf: Filter, rest: string)
    requires env.Valid() && style.Valid() && Printable(negated, leaf)
    ensures var s := LeafText(style, negated, leaf) + rest;
            WsWord(env, "NOT", s).Error? && WsTag("(", s).Error?
  {
    if IsGeo(leaf) {
      GeoTextStarts(style.pad, leaf);
      NotAtUnderscore(env, LeafText(style, negated, leaf) + rest);
    } else {
      FieldParses(env, style, negated, leaf, rest);
    }
  }

  lemma NotAtUnderscore(env: Env, s: string)
    requires s != "" && s[0] == '_'
    ensures WsWord(env, "NOT", s).Error? && WsTag("(", s).Error?
  {
  }

  /** Every printable leaf, in every form, is read back by the ordered alternatives. */
  lemma LeafParses(env: Env, style: Style, negated: bool, leaf: Filter, rest: string)
    requires env.Valid() && style.Valid() && Printable(negated, leaf)
    ensures Reads(ParseLeaf(env, LeafText(style, negated, leaf) + rest), rest, LeafTree(negated, leaf))
  {
    hide ParseLeaf, LeafText, Reads;
    match leaf
    case GeoLowerThan(_, _, _) => GeoLeafParses(env, style, leaf, rest);
    case GeoBoundingBox(_, _, _, _) => GeoLeafParses(env, style, leaf, rest);
    case In(fid, els) => InLeafParses(env, style, negated, fid, els, rest);
    case Condition(fid, op) =>
      if IsComparison(op) {
        ComparisonLeafParses(env, style, fid, op, rest);
      } else if op.Between? {
        BetweenLeafParses(env, style, fid, op, rest);
      } else if op.Contains? || op.StartsWith? {
        TextLeafParses(env, style, negated, fid, op, rest);
      } else {
        PhraseLeafParses(env, style, negated, fid, op, rest);
      }
  }
}

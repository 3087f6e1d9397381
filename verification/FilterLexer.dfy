/**
 Characters, words, quoted strings and values (crates/filter-parser/src/value.rs).
 */
module FilterLexer {
  import opened Basics
  import opened FilterSyntax

  // ---------- What the parser takes from libraries ----------

  /** Outcome of the `unescaper` crate on a string. */
  datatype Unescaped = Unescaped(content: string) | IncompleteStr | BadNumber | BadChar

  /**
   The parts that live outside the repository: the Unicode alphanumeric table and the `unescaper`
   crate.
   */
  datatype Env = Env(alnum: set<char>, unescape: string -> Unescaped) {
    /**
     What is assumed of them: the table is right on ASCII and contains no white space, and the
     crate turns doubled backslashes back into single ones and leaves ordinary characters alone.
     */
    ghost predicate Valid() {
      && (forall c: char :: c as int < 128 ==> (c in alnum <==> IsAsciiAlphanumeric(c)))
      && (forall c: char :: c in alnum ==> !IsWhitespace(c))
      && (forall s: string :: unescape(DoubleBackslashes(s)) == Unescaped(s))
    }
  }

  predicate IsAsciiAlphanumeric(c: char) {
    'a' <= c <= 'z' || 'A' <= c <= 'Z' || '0' <= c <= '9'
  }

  /** The Unicode White_Space property. */
  predicate IsWhitespace(c: char) {
    || '\U{9}' <= c <= '\U{D}'
    || c == ' '
    || c == '\U{85}'
    || c == '\U{A0}'
    || c == '\U{1680}'
    || '\U{2000}' <= c <= '\U{200A}'
    || c == '\U{2028}'
    || c == '\U{2029}'
    || c == '\U{202F}'
    || c == '\U{205F}'
    || c == '\U{3000}'
  }

  /** The code points with that property. */
  lemma WhitespaceTable(c: char)
    ensures IsWhitespace(c) <==>
            c as int in [9, 10, 11, 12, 13, 32, 133, 160, 5760, 8192, 8193, 8194, 8195, 8196, 8197, 8198, 8199, 8200,
                         8201, 8202, 8232, 8233, 8239, 8287, 12288]
  {
  }

  function DoubleBackslash(c: char): string {
    if c == '\\' then "\\\\" else [c]
  }

  function DoubleBackslashes(s: string): string {
    if s == "" then "" else DoubleBackslash(s[0]) + DoubleBackslashes(s[1..])
  }

  // ---------- nom primitives ----------

  predicate IsMultispace(c: char) {
    c == ' ' || c == '\t' || c == '\r' || c == '\n'
  }

  /** `multispace0`: the input after its leading spaces. */
  function SkipMultispace(s: string): (r: string)
    ensures |r| <= |s|
    ensures r == "" || !IsMultispace(r[0])
  {
    if s != "" && IsMultispace(s[0]) then SkipMultispace(s[1..]) else s
  }

  /** Spaces, tabulators and ends of lines only. */
  predicate IsSpaces(sp: string) {
    forall i :: 0 <= i < |sp| ==> sp[i] == ' ' || sp[i] == '\t' || sp[i] == '\r' || sp[i] == '\n'
  }

  lemma SkipNothing(s: string)
    requires s != "" && !IsMultispace(s[0])
    ensures SkipMultispace(s) == s
  {
  }

  function SkipWhitespace(s: string): (r: string)
    ensures |r| <= |s|
  {
    if s != "" && IsWhitespace(s[0]) then SkipWhitespace(s[1..]) else s
  }

  /** Leading spaces, however many and of whatever kind, make no difference. */
  lemma {:induction false} SkipSpaces(sp: string, s: string)
    requires IsSpaces(sp)
    ensures SkipMultispace(sp + s) == SkipMultispace(s)
    ensures SkipWhitespace(sp + s) == SkipWhitespace(s)
  {
    if sp == "" {
      assert sp + s == s;
    } else {
      assert (sp + s)[0] == sp[0] && IsMultispace(sp[0]) && IsWhitespace(sp[0]);
      assert (sp + s)[1..] == sp[1..] + s;
      SkipSpaces(sp[1..], s);
    }
  }

  /** Spaces are skipped up to the first other character. */
  lemma SkipTo(sp: string, s: string)
    requires IsSpaces(sp) && s != "" && !IsMultispace(s[0])
    ensures SkipMultispace(sp + s) == s
  {
    SkipSpaces(sp, s);
    SkipNothing(s);
  }

  lemma GapTaken(gap: string, s: string)
    requires IsSpaces(gap) && gap != ""
    ensures Multispace1(gap + s) == Ok(SkipMultispace(s), ())
  {
    assert (gap + s)[0] == gap[0] && (gap + s)[1..] == gap[1..] + s;
    SkipSpaces(gap[1..], s);
  }

  function Multispace1(s: string): (r: IResult<()>)
    ensures r.Ok? ==> |r.rem| < |s|
  {
    if s != "" && IsMultispace(s[0]) then Ok(SkipMultispace(s[1..]), ()) else Error(OtherKind)
  }

  function Tag(tag: string, s: string): (r: IResult<()>)
    ensures r.Ok? ==> |r.rem| == |s| - |tag|
  {
    if tag <= s then Ok(s[|tag|..], ()) else Error(OtherKind)
  }

  /** The tags one after the other, separated by at least one space. */
  function Tags(tags: seq<string>, s: string): (r: IResult<()>)
    ensures r.Ok? ==> |r.rem| <= |s|
    ensures r.Ok? || r == Error(OtherKind)
  {
    if tags == [] then Ok(s, ())
    else
      var (s, _) :- Tag(tags[0], s);
      if |tags| == 1 then Ok(s, ())
      else
        var (s, _) :- Multispace1(s);
        Tags(tags[1..], s)
  }

  /** `ws(tag(t))`. */
  function WsTag(tag: string, s: string): (r: IResult<()>)
    ensures r.Ok? ==> |r.rem| <= |s| - |tag|
  {
    var (s, _) :- Tag(tag, SkipMultispace(s));
    Ok(SkipMultispace(s), ())
  }

  // ---------- Words ----------

  predicate IsValueComponent(env: Env, c: char) {
    c in env.alnum || c == '_' || c == '-' || c == '.'
  }

  /** Length of the longest prefix made of value components. */
  function WordLength(env: Env, s: string): (n: nat)
    ensures n <= |s|
  {
    if s != "" && IsValueComponent(env, s[0]) then 1 + WordLength(env, s[1..]) else 0
  }

  const KEYWORDS: seq<string> := ["AND", "OR", "IN", "NOT", "TO", "EXISTS", "IS", "NULL", "EMPTY",
    "CONTAINS", "STARTS", "WITH", "_geoRadius", "_geoBoundingBox"]

  function WordNotKeyword(env: Env, s: string): (r: IResult<string>)
    ensures r.Ok? ==> |r.rem| < |s|
  {
    var n := WordLength(env, s);
    if n == 0 then Error(OtherKind)
    else if s[..n] in KEYWORDS then Error(ReservedKeyword)
    else Ok(s[n..], s[..n])
  }

  function WordExact(env: Env, tag: string, s: string): (r: IResult<()>)
    ensures r.Ok? ==> |r.rem| < |s|
    ensures r.Ok? || r.Error?
  {
    var n := WordLength(env, s);
    if n > 0 && s[..n] == tag then Ok(s[n..], ()) else Error(OtherKind)
  }

  /** `ws(word_exact(t))`. */
  function WsWord(env: Env, tag: string, s: string): (r: IResult<()>)
    ensures r.Ok? ==> |r.rem| < |s|
    ensures r.Ok? || r.Error?
  {
    var (s, _) :- WordExact(env, tag, SkipMultispace(s));
    Ok(SkipMultispace(s), ())
  }

  // ---------- Floats ----------

  predicate IsDigit(c: char) {
    '0' <= c <= '9'
  }

  function DigitsLength(s: string): (n: nat)
    ensures n <= |s|
  {
    if s != "" && IsDigit(s[0]) then 1 + DigitsLength(s[1..]) else 0
  }

  function SignLength(s: string): (n: nat)
    ensures n <= |s|
  {
    if s != "" && (s[0] == '+' || s[0] == '-') then 1 else 0
  }

  /** Digits with an optional fraction, or a fraction alone; zero if there is neither. */
  function MantissaLength(s: string): (n: nat)
    ensures n <= |s|
  {
    var n := DigitsLength(s);
    if n < |s| && s[n] == '.' then
      var f := DigitsLength(s[n + 1..]);
      if n == 0 && f == 0 then 0 else n + 1 + f
    else n
  }

  /** An exponent is optional, but it needs digits. */
  function ExponentLength(s: string): (r: Option<nat>)
    ensures r.Some? ==> r.value <= |s|
  {
    if s == "" || (s[0] != 'e' && s[0] != 'E') then Some(0)
    else
      var sign := SignLength(s[1..]);
      var n := DigitsLength(s[1 + sign..]);
      if n == 0 then None else Some(1 + sign + n)
  }

  /** nom's `recognize_float`. */
  function RecognizeFloat(s: string): (r: IResult<string>)
    ensures r.Ok? ==> |r.rem| < |s|
  {
    var sign := SignLength(s);
    var m := MantissaLength(s[sign..]);
    if m == 0 then Error(OtherKind)
    else match ExponentLength(s[sign + m..])
      case None => Failure(OtherKind)
      case Some(e) => Ok(s[sign + m + e..], s[..sign + m + e])
  }

  /** `ws(recognize_float)`. */
  function WsFloat(s: string): (r: IResult<string>)
    ensures r.Ok? ==> |r.rem| < |s|
  {
    var (s, t) :- RecognizeFloat(SkipMultispace(s));
    Ok(SkipMultispace(s), t)
  }

  /** `separated_list1(tag(","), ws(recognize_float))`, from the first separator on. */
  function MoreFloats(s: string): (r: IResult<seq<string>>)
    ensures r.Ok? ==> |r.rem| <= |s|
    decreases |s|
  {
    hide WsFloat;
    if s == "" || s[0] != ',' then Ok(s, [])
    else
      var float := WsFloat(s[1..]);
      if float.Error? then Ok(s, [])
      else
        var (s, t) :- float;
        var (s, ts) :- MoreFloats(s);
        Ok(s, [t] + ts)
  }

  /** A list of floats between brackets. */
  function FloatList(open: string, close: string, s: string): (r: IResult<seq<string>>)
    ensures r.Ok? ==> |r.rem| < |s|
  {
    var (s, _) :- Tag(open, s);
    var (s, t) :- WsFloat(s);
    var (s, ts) :- MoreFloats(s);
    var (s, _) :- Tag(close, s);
    Ok(s, [t] + ts)
  }

  /** A list of floats between square brackets, with spaces around. */
  function WsPoint(s: string): (r: IResult<seq<string>>)
    ensures r.Ok? ==> |r.rem| < |s|
  {
    var (s, p) :- FloatList("[", "]", SkipMultispace(s));
    Ok(SkipMultispace(s), p)
  }

  function MorePoints(s: string): (r: IResult<seq<seq<string>>>)
    ensures r.Ok? ==> |r.rem| <= |s|
    decreases |s|
  {
    hide WsPoint;
    if s == "" || s[0] != ',' then Ok(s, [])
    else
      var point := WsPoint(s[1..]);
      if point.Error? then Ok(s, [])
      else
        var (s, p) :- point;
        var (s, ps) :- MorePoints(s);
        Ok(s, [p] + ps)
  }

  function PointList(s: string): (r: IResult<seq<seq<string>>>)
    ensures r.Ok? ==> |r.rem| < |s|
  {
    var (s, _) :- Tag("(", s);
    var (s, p) :- WsPoint(s);
    var (s, ps) :- MorePoints(s);
    var (s, _) :- Tag(")", s);
    Ok(s, [p] + ps)
  }

  // ---------- Geo ----------

  /** `_geoPoint` and `_geoDistance` can only fail, finally once the name is recognised. */
  function ParseGeoReserved(name: string, s: string): IResult<Filter> {
    if Tag(name, SkipMultispace(s)).Ok? then Failure(OtherKind) else Error(OtherKind)
  }

  function ParseGeo(env: Env, s: string): IResult<Filter> {
    if WordExact(env, "_geo", SkipMultispace(s)).Ok? then Failure(OtherKind) else Error(OtherKind)
  }

  function ParseGeoRadius(env: Env, s: string): (r: IResult<Filter>)
    ensures r.Ok? ==> |r.rem| <= |s| && r.out.GeoLowerThan?
  {
    var (s, _) :- WordExact(env, "_geoRadius", SkipMultispace(s));
    var (s, args) :- FloatList("(", ")", s).Cut();
    if |args| != 3 then Failure(OtherKind) else Ok(s, GeoLowerThan(args[0], args[1], args[2]))
  }

  function ParseGeoBoundingBox(env: Env, s: string): (r: IResult<Filter>)
    ensures r.Ok? ==> |r.rem| <= |s| && r.out.GeoBoundingBox?
  {
    var (s, _) :- WordExact(env, "_geoBoundingBox", SkipMultispace(s));
    var (s, args) :- PointList(s).Cut();
    if |args| != 2 || |args[0]| != 2 || |args[1]| != 2 then Failure(OtherKind)
    else Ok(s, GeoBoundingBox(args[0][0], args[0][1], args[1][0], args[1][1]))
  }

  /** A geo filter where a value is expected. */
  predicate MisusedGeo(env: Env, s: string) {
    || ParseGeoReserved("_geoPoint", s).Failure?
    || ParseGeoReserved("_geoDistance", s).Failure?
    || ParseGeo(env, s).Failure?
    || !ParseGeoRadius(env, s).Error?
    || !ParseGeoBoundingBox(env, s).Error?
  }

  // ---------- Quoted strings ----------

  /** Where the quoted text ends and whether a quote was escaped in it. */
  datatype QuoteScan = Closed(len: nat, escaped: bool) | Dangling {
    function Shift(n: nat, e: bool): QuoteScan {
      if Closed? then Closed(len + n, e || escaped) else Dangling
    }
  }

  function ScanQuoted(quote: char, s: string): (r: QuoteScan)
    ensures r.Closed? ==> r.len <= |s|
  {
    if s == "" || s[0] == quote then Closed(0, false)
    else if s[0] != '\\' then ScanQuoted(quote, s[1..]).Shift(1, false)
    else if |s| == 1 then Dangling
    else ScanQuoted(quote, s[2..]).Shift(2, s[1] == quote)
  }

  /** `str::replace` of a backslash and the quote by the quote alone. */
  function UnescapeQuote(s: string, quote: char): string {
    if s == "" then ""
    else if |s| >= 2 && s[0] == '\\' && s[1] == quote then [quote] + UnescapeQuote(s[2..], quote)
    else [s[0]] + UnescapeQuote(s[1..], quote)
  }

  function QuotedBy(quote: char, s: string): (r: IResult<string>)
    ensures r.Ok? ==> |r.rem| <= |s|
  {
    match ScanQuoted(quote, s)
    case Closed(n, escaped) => Ok(s[n..], if escaped then UnescapeQuote(s[..n], quote) else s[..n])
    case Dangling => Error(OtherKind)
  }

  /** The loop of `quoted_by`, over the characters of the input. */
  method ScanQuotedText(quote: char, input: string) returns (r: IResult<string>)
    requires quote != '\\'
    ensures r == QuotedBy(quote, input)
  {
    if input == "" {
      return Ok("", "");
    }
    var escaped := false;
    var i := 0;
    while i < |input|
      invariant 0 <= i <= |input|
      invariant ScanQuoted(quote, input) == ScanQuoted(quote, input[i..]).Shift(i, escaped)
    {
      var c := input[i];
      var idx := i;
      i := i + 1;
      if c == quote {
        return Ok(input[idx..], if escaped then UnescapeQuote(input[..idx], quote) else input[..idx]);
      } else if c == '\\' {
        if i < |input| {
          escaped := escaped || input[i] == quote;
          i := i + 1;
          assert input[idx..][2..] == input[i..];
        } else {
          return Error(OtherKind);
        }
      } else {
        assert input[idx..][1..] == input[i..];
      }
    }
    assert input[..i] == input;
    r := Ok("", if escaped then UnescapeQuote(input, quote) else input);
  }

  // ---------- Values ----------

  /** `delimited(char(quote), cut(quoted_by), cut(char(quote)))`, after the opening quote. */
  function QuotedValue(quote: char, s: string): (r: IResult<string>)
    ensures r.Ok? ==> |r.rem| <= |s|
    ensures !r.Error?
  {
    var (s, value) :- QuotedBy(quote, s).Cut();
    if s != "" && s[0] == quote then Ok(s[1..], value) else Failure(OtherKind)
  }

  function RawValue(env: Env, s: string): (r: IResult<string>)
    ensures r.Ok? ==> |r.rem| < |s|
  {
    if s != "" && s[0] == '\'' then QuotedValue('\'', s[1..])
    else if s != "" && s[0] == '"' then QuotedValue('"', s[1..])
    else WordNotKeyword(env, s)
  }

  function ParseValue(env: Env, s: string): (r: IResult<string>)
    ensures r.Ok? ==> |r.rem| < |s|
  {
    var s := SkipWhitespace(s);
    if MisusedGeo(env, s) then Failure(OtherKind)
    else
      var raw := RawValue(env, s);
      var (s, value) :- raw.MapErr(ExpectedValue(raw == Error(ReservedKeyword)));
      match env.unescape(value)
      case Unescaped(content) =>
        Ok(SkipMultispace(s), if |content| != |value| then content else value)
      case IncompleteStr => Incomplete
      case BadNumber => Error(OtherKind)
      case BadChar => Error(OtherKind)
  }
}

/**
 The recursive-descent parser of filters (crates/filter-parser/src/lib.rs and condition.rs).

 Every function mirrors one parser of the source: it takes the remaining input and returns what
 nom would.  The flag `collapse` is true for the parser of the source; with `collapse` false the
 parser keeps every `NOT` as a node, which is the reference the collapsing is compared with.
 */
module FilterParser {
  import opened FilterSyntax
  import opened FilterLexer

  const MAX_FILTER_DEPTH: nat := 200

  /** It reads forward and builds a leaf or its negation. */
  predicate LeafResult(r: IResult<Filter>, s: string) {
    r.Ok? ==> |r.rem| <= |s| && (IsLeaf(r.out) || (r.out.Not? && IsLeaf(r.out.inner)))
  }

  /** What the alternatives that start with a field guarantee. */
  predicate FieldResult(r: IResult<Filter>, s: string) {
    r.Ok? ==>
      && |r.rem| <= |s|
      && (IsFieldLeaf(r.out) || (r.out.Not? && IsFieldLeaf(r.out.inner)))
  }

  predicate IsFieldLeaf(f: Filter) {
    f.Condition? || f.In?
  }

  // ---------- IN ----------

  /** `many0(preceded(ws(tag(",")), parse_value))`. */
  function MoreValues(env: Env, s: string): (r: IResult<seq<string>>)
    ensures r.Ok? ==> |r.rem| <= |s|
    decreases |s|
  {
    hide ParseValue;
    var comma := WsTag(",", s);
    if !comma.Ok? then Ok(s, [])
    else
      var value := ParseValue(env, comma.rem);
      if value.Error? then Ok(s, [])
      else
        var (s, v) :- value;
        var (s, vs) :- MoreValues(env, s);
        Ok(s, [v] + vs)
  }

  function ParseValueList(env: Env, s: string): (r: IResult<seq<string>>)
    ensures r.Ok? ==> |r.rem| <= |s|
  {
    var value := ParseValue(env, s);
    if value.Error? then Ok(s, [])
    else
      var (s, first) :- value;
      var (s, values) :- MoreValues(env, s);
      var last := WsTag(",", s);
      Ok(if last.Ok? then last.rem else s, [first] + values)
  }

  function ParseInBody(env: Env, s: string): (r: IResult<seq<string>>)
    ensures r.Ok? ==> |r.rem| <= |s|
  {
    var (s, _) :- WsWord(env, "IN", s);
    var (s, _) :- Tag("[", s).Cut();
    var (s, els) :- ParseValueList(env, s).Cut();
    var (s, _) :- WsTag("]", s).Cut();
    Ok(s, els)
  }

  function ParseIn(env: Env, s: string): (r: IResult<Filter>)
    ensures FieldResult(r, s)
  {
    var (s, fid) :- ParseValue(env, s);
    var (s, els) :- ParseInBody(env, s);
    Ok(s, In(fid, els))
  }

  function ParseNotIn(env: Env, s: string): (r: IResult<Filter>)
    ensures FieldResult(r, s)
  {
    var (s, fid) :- ParseValue(env, s);
    var (s, _) :- WordExact(env, "NOT", s);
    var (s, els) :- ParseInBody(env, s);
    Ok(s, Not(In(fid, els)))
  }

  // ---------- Conditions ----------

  /** The comparison operators, in the order in which they are tried. */
  function ComparisonOperator(s: string): (r: IResult<string>)
    ensures r.Ok? ==> |r.rem| < |s|
  {
    if "<=" <= s then Ok(s[2..], "<=")
    else if ">=" <= s then Ok(s[2..], ">=")
    else if "!=" <= s then Ok(s[2..], "!=")
    else if "<" <= s then Ok(s[1..], "<")
    else if ">" <= s then Ok(s[1..], ">")
    else if "=" <= s then Ok(s[1..], "=")
    else Error(OtherKind)
  }

  function Comparison(operator: string, value: string): Condition {
    if operator == "<=" then LowerThanOrEqual(value)
    else if operator == ">=" then GreaterThanOrEqual(value)
    else if operator == "!=" then NotEqual(value)
    else if operator == "<" then LowerThan(value)
    else if operator == ">" then GreaterThan(value)
    else Equal(value)
  }

  function ParseCondition(env: Env, s: string): (r: IResult<Filter>)
    ensures FieldResult(r, s)
  {
    var (s, fid) :- ParseValue(env, s);
    var (s, operator) :- ComparisonOperator(s);
    var (s, value) :- ParseValue(env, s).Cut();
    Ok(s, Condition(fid, Comparison(operator, value)))
  }

  /** A field followed by a fixed phrase: `IS NULL`, `IS EMPTY`, `EXISTS`. */
  function ParsePhrase(env: Env, phrase: seq<string>, op: Condition, s: string): (r: IResult<Filter>)
    ensures FieldResult(r, s)
  {
    var (s, fid) :- ParseValue(env, s);
    var (s, _) :- Tags(phrase, s);
    Ok(s, Condition(fid, op))
  }

  /** The negated phrases build the negation themselves: `IS NOT NULL`, `IS NOT EMPTY`, `NOT EXISTS`. */
  function ParseNotPhrase(env: Env, phrase: seq<string>, op: Condition, s: string): (r: IResult<Filter>)
    ensures FieldResult(r, s)
  {
    var (s, f) :- ParsePhrase(env, phrase, op, s);
    Ok(s, Not(f))
  }

  /** The text operators, whose `STARTS WITH` is one tag with one space. */
  datatype TextOperator = ContainsWord | StartsWithWord {
    function Text(): string {
      if ContainsWord? then "CONTAINS" else "STARTS WITH"
    }

    function Apply(word: string): Condition {
      if ContainsWord? then Contains(word) else StartsWith(word)
    }
  }

  function ParseText(env: Env, op: TextOperator, s: string): (r: IResult<Filter>)
    ensures FieldResult(r, s)
  {
    var (s, fid) :- ParseValue(env, s);
    var (s, _) :- Tags([op.Text()], s);
    var (s, word) :- ParseValue(env, s).Cut();
    Ok(s, Condition(fid, op.Apply(word)))
  }

  function ParseNotText(env: Env, op: TextOperator, s: string): (r: IResult<Filter>)
    ensures FieldResult(r, s)
  {
    var (s, fid) :- ParseValue(env, s);
    var (s, _) :- Tags(["NOT", op.Text()], s);
    var (s, word) :- ParseValue(env, s).Cut();
    Ok(s, Not(Condition(fid, op.Apply(word))))
  }

  function ParseTo(env: Env, s: string): (r: IResult<Filter>)
    ensures FieldResult(r, s)
  {
    var (s, fid) :- ParseValue(env, s);
    ParseRange(env, fid, s)
  }

  /** `value "TO" WS+ value`, after the field. */
  function ParseRange(env: Env, fid: string, s: string): (r: IResult<Filter>)
    ensures FieldResult(r, s)
  {
    var (s, from) :- ParseValue(env, s);
    var (s, _) :- Tag("TO", s);
    var (s, _) :- Multispace1(s);
    var (s, to) :- ParseValue(env, s).Cut();
    Ok(s, Condition(fid, Between(from, to)))
  }

  /** Only there to make a misplaced keyword a final error; it relaxes the other failures. */
  function ParseErrorReservedKeyword(env: Env, s: string): (r: IResult<Filter>)
    ensures FieldResult(r, s)
  {
    match ParseCondition(env, s)
    case Error(k) => if k == ExpectedValue(true) then Failure(k) else Error(k)
    case Failure(k) => if k == ExpectedValue(true) then Failure(k) else Error(k)
    case r => r
  }

  /** The alternatives of `parse_primary` other than the parenthesis, in order. */
  function ParseLeaf(env: Env, s: string): (r: IResult<Filter>)
    ensures LeafResult(r, s)
  {
    hide ParseGeoRadius, ParseGeoBoundingBox, ParseIn, ParseNotIn, ParseCondition, ParsePhraseLeaf, ParseTo,
      ParseTextLeaf, ParseLeafError;
    ParseGeoRadius(env, s)
      .Else(ParseGeoBoundingBox(env, s))
      .Else(ParseIn(env, s))
      .Else(ParseNotIn(env, s))
      .Else(ParseCondition(env, s))
      .Else(ParsePhraseLeaf(env, s))
      .Else(ParseTo(env, s))
      .Else(ParseTextLeaf(env, s))
      .Else(ParseLeafError(env, s))
  }

  /** The last alternatives, which only refine the error. */
  function ParseLeafError(env: Env, s: string): (r: IResult<Filter>)
    ensures FieldResult(r, s)
  {
    ParseGeo(env, s)
      .Else(ParseGeoReserved("_geoDistance", s))
      .Else(ParseGeoReserved("_geoPoint", s))
      .Else(ParseErrorReservedKeyword(env, s))
  }

  function ParsePhraseLeaf(env: Env, s: string): (r: IResult<Filter>)
    ensures FieldResult(r, s)
  {
    ParsePhrase(env, ["IS", "NULL"], Null, s)
      .Else(ParseNotPhrase(env, ["IS", "NOT", "NULL"], Null, s))
      .Else(ParsePhrase(env, ["IS", "EMPTY"], Empty, s))
      .Else(ParseNotPhrase(env, ["IS", "NOT", "EMPTY"], Empty, s))
      .Else(ParsePhrase(env, ["EXISTS"], Exists, s))
      .Else(ParseNotPhrase(env, ["NOT", "EXISTS"], Exists, s))
  }

  function ParseTextLeaf(env: Env, s: string): (r: IResult<Filter>)
    ensures FieldResult(r, s)
  {
    ParseText(env, ContainsWord, s)
      .Else(ParseNotText(env, ContainsWord, s))
      .Else(ParseText(env, StartsWithWord, s))
      .Else(ParseNotText(env, StartsWithWord, s))
  }

  // ---------- Boolean structure ----------

  /** The tree built for `NOT e`. */
  function Negate(collapse: bool, e: Filter): Filter {
    if collapse && e.Not? then e.inner else Not(e)
  }

  /** Remaining depth, used as a termination measure. */
  function Fuel(depth: nat): nat {
    if depth > MAX_FILTER_DEPTH then 0 else MAX_FILTER_DEPTH + 1 - depth
  }

  function ParseOr(env: Env, collapse: bool, s: string, depth: nat): (r: IResult<Filter>)
    ensures r.Ok? ==> |r.rem| <= |s|
    decreases Fuel(depth), |s| + 1
  {
    if depth > MAX_FILTER_DEPTH then Error(DepthLimitReached)
    else
      var (s, first) :- ParseAnd(env, collapse, s, depth + 1);
      var (s, ors) :- MoreOrs(env, collapse, s, depth);
      Ok(s, if ors == [] then first else Or([first] + ors))
  }

  /** `many0(preceded(ws(word_exact("OR")), cut(parse_and)))`. */
  function MoreOrs(env: Env, collapse: bool, s: string, depth: nat): (r: IResult<seq<Filter>>)
    requires depth <= MAX_FILTER_DEPTH
    ensures r.Ok? ==> |r.rem| <= |s|
    decreases Fuel(depth), |s|
  {
    var word := WsWord(env, "OR", s);
    if !word.Ok? then Ok(s, [])
    else
      var (s, f) :- ParseAnd(env, collapse, word.rem, depth + 1).Cut();
      var (s, fs) :- MoreOrs(env, collapse, s, depth);
      Ok(s, [f] + fs)
  }

  function ParseAnd(env: Env, collapse: bool, s: string, depth: nat): (r: IResult<Filter>)
    ensures r.Ok? ==> |r.rem| <= |s|
    decreases Fuel(depth), |s| + 1
  {
    if depth > MAX_FILTER_DEPTH then Error(DepthLimitReached)
    else
      var (s, first) :- ParseNot(env, collapse, s, depth + 1);
      var (s, ands) :- MoreAnds(env, collapse, s, depth);
      Ok(s, if ands == [] then first else And([first] + ands))
  }

  /** `many0(preceded(ws(word_exact("AND")), cut(parse_not)))`. */
  function MoreAnds(env: Env, collapse: bool, s: string, depth: nat): (r: IResult<seq<Filter>>)
    requires depth <= MAX_FILTER_DEPTH
    ensures r.Ok? ==> |r.rem| <= |s|
    decreases Fuel(depth), |s|
  {
    var word := WsWord(env, "AND", s);
    if !word.Ok? then Ok(s, [])
    else
      var (s, f) :- ParseNot(env, collapse, word.rem, depth + 1).Cut();
      var (s, fs) :- MoreAnds(env, collapse, s, depth);
      Ok(s, [f] + fs)
  }

  function ParseNot(env: Env, collapse: bool, s: string, depth: nat): (r: IResult<Filter>)
    ensures r.Ok? ==> |r.rem| <= |s|
    decreases Fuel(depth), |s| + 1
  {
    if depth > MAX_FILTER_DEPTH then Error(DepthLimitReached)
    else
      var word := WsWord(env, "NOT", s);
      if !word.Ok? then ParsePrimary(env, collapse, s, depth + 1)
      else
        var (s, e) :- ParseNot(env, collapse, word.rem, depth + 1).Cut();
        Ok(s, Negate(collapse, e))
  }

  function ParsePrimary(env: Env, collapse: bool, s: string, depth: nat): (r: IResult<Filter>)
    ensures r.Ok? ==> |r.rem| <= |s|
    decreases Fuel(depth), |s| + 1
  {
    if depth > MAX_FILTER_DEPTH then Error(DepthLimitReached)
    else
      var open := WsTag("(", s);
      if !open.Ok? then ParseLeaf(env, s).MapErr(InvalidPrimary)
      else
        var (s, e) :- ParseOr(env, collapse, open.rem, depth + 1).Cut();
        var (s, _) :- WsTag(")", s).Cut();
        Ok(s, e)
  }

  /** `parse_filter`: an expression and nothing after it. */
  function ParseFilter(env: Env, collapse: bool, s: string): IResult<Filter> {
    var (s, f) :- ParseOr(env, collapse, s, 0);
    if s == "" then Ok("", f) else Error(OtherKind)
  }
}

/**
 The grammar of filters as a set of texts (the grammar at the head of
 crates/filter-parser/src/lib.rs and the comments on the parsers): every way to write a value, a
 condition and a filter, with all spaces, and the tree each text stands for.

 `Show` gives the text, `Meaning` the tree, and `ValidOr` says which forms the grammar allows.  No parsing
 function occurs here.
 */
module FilterGrammar {
  import opened Basics
  import opened FilterSyntax
  import opened FilterLexer
  import opened FilterQuoting

  // ---------- Values ----------

  datatype ValueForm = Quoted(quote: char, body: string) | Bare(word: string)

  /** A value with the white space around it. */
  datatype WrittenValue = WrittenValue(before: string, form: ValueForm, after: string)

  predicate IsBlank(sp: string) {
    forall i :: 0 <= i < |sp| ==> IsWhitespace(sp[i])
  }

  /** What may stand between quotes: no quote but after a backslash, and no backslash at the end. */
  predicate BodyOk(quote: char, body: string) {
    if body == "" then true
    else if body[0] == '\\' then |body| >= 2 && BodyOk(quote, body[2..])
    else body[0] != quote && BodyOk(quote, body[1..])
  }

  predicate IsBareChar(env: Env, c: char) {
    c in env.alnum || c == '_' || c == '-' || c == '.'
  }

  /** Words that cannot stand for a value. */
  predicate IsReserved(w: string) {
    || w in ["AND", "OR", "IN", "NOT", "TO", "EXISTS", "IS", "NULL", "EMPTY", "CONTAINS", "STARTS", "WITH"]
    || w in ["_geo", "_geoRadius", "_geoBoundingBox"]
    || "_geoPoint" <= w || "_geoDistance" <= w
  }

  predicate ValidForm(env: Env, f: ValueForm) {
    match f
    case Quoted(quote, body) => IsQuote(quote) && BodyOk(quote, body)
    case Bare(word) => word != "" && (forall i :: 0 <= i < |word| ==> IsBareChar(env, word[i])) && !IsReserved(word)
  }

  function ShowForm(f: ValueForm): string {
    match f
    case Quoted(quote, body) => [quote] + (body + [quote])
    case Bare(word) => word
  }

  /** The text with the backslashes before quotes taken away. */
  function RawOf(f: ValueForm): string {
    match f
    case Quoted(quote, body) => UnescapeQuote(body, quote)
    case Bare(word) => word
  }

  /** The value: the unescaped text, unless unescaping has not changed its length. */
  function ValueOf(env: Env, w: WrittenValue): string {
    var raw := RawOf(w.form);
    match env.unescape(raw)
    case Unescaped(content) => if |content| != |raw| then content else raw
    case _ => raw
  }

  predicate ValidValue(env: Env, w: WrittenValue) {
    IsBlank(w.before) && ValidForm(env, w.form) && IsSpaces(w.after) && env.unescape(RawOf(w.form)).Unescaped?
  }

  function ShowValue(w: WrittenValue): string {
    w.before + (ShowForm(w.form) + w.after)
  }

  // ---------- Phrases and lists ----------

  /** Words, each but the first with the spaces in front of it. */
  datatype WrittenWords = WrittenWords(first: string, rest: seq<(string, string)>)

  function ShowRest(rest: seq<(string, string)>): string {
    if rest == [] then "" else rest[0].0 + (rest[0].1 + ShowRest(rest[1..]))
  }

  function ShowWords(w: WrittenWords): string {
    w.first + ShowRest(w.rest)
  }

  function WordsOf(w: WrittenWords): seq<string> {
    [w.first] + seq(|w.rest|, i requires 0 <= i < |w.rest| => w.rest[i].1)
  }

  /** At least one space between words. */
  predicate ValidWords(w: WrittenWords) {
    forall i :: 0 <= i < |w.rest| ==> w.rest[i].0 != "" && IsSpaces(w.rest[i].0)
  }

  /** A value of a list with the comma in front of it. */
  datatype Item = Item(before: string, after: string, value: WrittenValue)

  function ShowItems(items: seq<Item>): string {
    if items == [] then ""
    else items[0].before + ("," + (items[0].after + (ShowValue(items[0].value) + ShowItems(items[1..]))))
  }

  predicate ValidItems(env: Env, items: seq<Item>) {
    forall i :: 0 <= i < |items| ==>
      IsSpaces(items[i].before) && IsSpaces(items[i].after) && ValidValue(env, items[i].value)
  }

  function ItemValues(env: Env, items: seq<Item>): seq<string> {
    if items == [] then [] else [ValueOf(env, items[0].value)] + ItemValues(env, items[1..])
  }

  /** Nothing, or values separated by commas with an optional comma at the end. */
  datatype WrittenList =
    | NoValues
    | Values(first: WrittenValue, items: seq<Item>, comma: Option<(string, string)>)

  function ShowComma(comma: Option<(string, string)>): string {
    match comma
    case None => ""
    case Some((before, after)) => before + ("," + after)
  }

  function ShowList(l: WrittenList): string {
    match l
    case NoValues => ""
    case Values(first, items, comma) => ShowValue(first) + (ShowItems(items) + ShowComma(comma))
  }

  predicate ValidList(env: Env, l: WrittenList) {
    match l
    case NoValues => true
    case Values(first, items, comma) =>
      && ValidValue(env, first) && ValidItems(env, items)
      && (comma.Some? ==> IsSpaces(comma.value.0) && IsSpaces(comma.value.1))
  }

  function ListValues(env: Env, l: WrittenList): seq<string> {
    match l
    case NoValues => []
    case Values(first, items, _) => [ValueOf(env, first)] + ItemValues(env, items)
  }

  // ---------- Floats ----------

  predicate IsDigits(s: string) {
    forall i :: 0 <= i < |s| ==> '0' <= s[i] <= '9'
  }

  predicate IsSign(s: string) {
    s == "" || (|s| == 1 && (s[0] == '+' || s[0] == '-'))
  }

  /** The letter, an optional sign and digits. */
  predicate IsExponent(t: string) {
    && t != "" && (t[0] == 'e' || t[0] == 'E')
    && var digits := if |t| > 1 && (t[1] == '+' || t[1] == '-') then t[2..] else t[1..];
       digits != "" && IsDigits(digits)
  }

  /** A sign, digits with an optional fraction or a fraction alone, and an exponent. */
  datatype FloatForm = FloatForm(sign: string, whole: string, dot: bool, fraction: string, exponent: string)

  function ShowMantissa(f: FloatForm): string {
    f.whole + (if f.dot then "." else "") + f.fraction
  }

  function ShowFloat(f: FloatForm): string {
    f.sign + (ShowMantissa(f) + f.exponent)
  }

  predicate ValidFloat(f: FloatForm) {
    && IsSign(f.sign) && IsDigits(f.whole) && IsDigits(f.fraction)
    && (if f.dot then f.whole != "" || f.fraction != "" else f.whole != "" && f.fraction == "")
    && (f.exponent == "" || IsExponent(f.exponent))
  }

  /** A float with the spaces around it. */
  datatype SpacedFloat = SpacedFloat(before: string, float: FloatForm, after: string)

  function ShowSpacedFloat(f: SpacedFloat): string {
    f.before + (ShowFloat(f.float) + f.after)
  }

  function ShowMoreFloats(fs: seq<SpacedFloat>): string {
    if fs == [] then "" else "," + (ShowSpacedFloat(fs[0]) + ShowMoreFloats(fs[1..]))
  }

  /** A list of floats in brackets. */
  function ShowFloats(open: string, fs: seq<SpacedFloat>, close: string): string
    requires fs != []
  {
    open + (ShowSpacedFloat(fs[0]) + (ShowMoreFloats(fs[1..]) + close))
  }

  predicate ValidFloats(fs: seq<SpacedFloat>) {
    forall i :: 0 <= i < |fs| ==> IsSpaces(fs[i].before) && ValidFloat(fs[i].float) && IsSpaces(fs[i].after)
  }

  function FloatTexts(fs: seq<SpacedFloat>): (r: seq<string>)
    ensures |r| == |fs|
  {
    seq(|fs|, i requires 0 <= i < |fs| => ShowFloat(fs[i].float))
  }

  /** A point with the spaces around it. */
  datatype SpacedPoint = SpacedPoint(before: string, floats: seq<SpacedFloat>, after: string)

  predicate ValidPoints(ps: seq<SpacedPoint>) {
    forall i :: 0 <= i < |ps| ==>
      IsSpaces(ps[i].before) && ps[i].floats != [] && ValidFloats(ps[i].floats) && IsSpaces(ps[i].after)
  }

  function ShowPoint(p: SpacedPoint): string {
    p.before + ((if p.floats == [] then "" else ShowFloats("[", p.floats, "]")) + p.after)
  }

  function ShowMorePoints(ps: seq<SpacedPoint>): string {
    if ps == [] then "" else "," + (ShowPoint(ps[0]) + ShowMorePoints(ps[1..]))
  }

  function ShowPoints(ps: seq<SpacedPoint>): string
    requires ps != []
  {
    "(" + (ShowPoint(ps[0]) + (ShowMorePoints(ps[1..]) + ")"))
  }

  // ---------- Conditions ----------

  datatype WrittenLeaf =
    | Compared(field: WrittenValue, operator: string, value: WrittenValue)
    | Phrased(field: WrittenValue, words: WrittenWords)
    | Texted(field: WrittenValue, words: WrittenWords, value: WrittenValue)
    | Ranged(field: WrittenValue, from: WrittenValue, gap: string, to: WrittenValue)
    | Listed(field: WrittenValue, negation: Option<string>, before: string, after: string, list: WrittenList,
             inner: string, outer: string)
    | Circled(before: string, floats: seq<SpacedFloat>)
    | Boxed(before: string, points: seq<SpacedPoint>)

  function ShowNegation(negation: Option<string>): string {
    match negation
    case None => ""
    case Some(gap) => "NOT" + gap
  }

  function ShowLeaf(l: WrittenLeaf): string {
    match l
    case Compared(field, operator, value) => ShowValue(field) + (operator + ShowValue(value))
    case Phrased(field, words) => ShowValue(field) + ShowWords(words)
    case Texted(field, words, value) => ShowValue(field) + (ShowWords(words) + ShowValue(value))
    case Ranged(field, from, gap, to) => ShowValue(field) + (ShowValue(from) + ("TO" + (gap + ShowValue(to))))
    case Listed(field, negation, before, after, list, inner, outer) =>
      ShowValue(field) +
      (ShowNegation(negation) + (before + ("IN" + (after + ("[" + (ShowList(list) + (inner + ("]" + outer))))))))
    case Circled(before, floats) =>
      if floats == [] then "" else before + ("_geoRadius" + ShowFloats("(", floats, ")"))
    case Boxed(before, points) => if points == [] then "" else before + ("_geoBoundingBox" + ShowPoints(points))
  }

  predicate IsOperator(operator: string) {
    operator in ["=", "!=", "<", "<=", ">", ">="]
  }

  function OperatorMeaning(operator: string, value: string): Condition
    requires IsOperator(operator)
  {
    if operator == "=" then Equal(value)
    else if operator == "!=" then NotEqual(value)
    else if operator == "<" then LowerThan(value)
    else if operator == "<=" then LowerThanOrEqual(value)
    else if operator == ">" then GreaterThan(value)
    else GreaterThanOrEqual(value)
  }

  /** The phrases without a value, and what they say of a field. */
  function PhraseMeaning(words: seq<string>, field: string): Option<Filter> {
    if words == ["IS", "NULL"] then Some(Condition(field, Null))
    else if words == ["IS", "NOT", "NULL"] then Some(Not(Condition(field, Null)))
    else if words == ["IS", "EMPTY"] then Some(Condition(field, Empty))
    else if words == ["IS", "NOT", "EMPTY"] then Some(Not(Condition(field, Empty)))
    else if words == ["EXISTS"] then Some(Condition(field, Exists))
    else if words == ["NOT", "EXISTS"] then Some(Not(Condition(field, Exists)))
    else None
  }

  /** The phrases with a value; `STARTS WITH` is written with one space. */
  function TextMeaning(words: seq<string>, field: string, value: string): Option<Filter> {
    if words == ["CONTAINS"] then Some(Condition(field, Contains(value)))
    else if words == ["NOT", "CONTAINS"] then Some(Not(Condition(field, Contains(value))))
    else if words == ["STARTS WITH"] then Some(Condition(field, StartsWith(value)))
    else if words == ["NOT", "STARTS WITH"] then Some(Not(Condition(field, StartsWith(value))))
    else None
  }

  /** What a leaf stands for, if it is one. */
  function LeafMeaning(env: Env, l: WrittenLeaf): Option<Filter> {
    match l
    case Compared(field, operator, value) =>
      if IsOperator(operator) then Some(Condition(ValueOf(env, field), OperatorMeaning(operator, ValueOf(env, value))))
      else None
    case Phrased(field, words) => PhraseMeaning(WordsOf(words), ValueOf(env, field))
    case Texted(field, words, value) => TextMeaning(WordsOf(words), ValueOf(env, field), ValueOf(env, value))
    case Ranged(field, from, gap, to) =>
      Some(Condition(ValueOf(env, field), Between(ValueOf(env, from), ValueOf(env, to))))
    case Listed(field, negation, _, _, list, _, _) =>
      var list := In(ValueOf(env, field), ListValues(env, list));
      Some(if negation.Some? then Not(list) else list)
    case Circled(_, floats) =>
      var texts := FloatTexts(floats);
      if |texts| == 3 then Some(GeoLowerThan(texts[0], texts[1], texts[2])) else None
    case Boxed(_, points) =>
      if |points| == 2 && |points[0].floats| == 2 && |points[1].floats| == 2 then
        var p, q := FloatTexts(points[0].floats), FloatTexts(points[1].floats);
        Some(GeoBoundingBox(p[0], p[1], q[0], q[1]))
      else None
  }

  predicate ValidLeaf(env: Env, l: WrittenLeaf) {
    && LeafMeaning(env, l).Some?
    && match l
       case Compared(field, _, value) => ValidValue(env, field) && ValidValue(env, value)
       case Phrased(field, words) => ValidValue(env, field) && ValidWords(words)
       case Texted(field, words, value) => ValidValue(env, field) && ValidWords(words) && ValidValue(env, value)
       case Ranged(field, from, gap, to) =>
         && ValidValue(env, field) && ValidValue(env, from) && ValidValue(env, to)
         && gap != "" && IsSpaces(gap)
       case Listed(field, negation, before, after, list, inner, outer) =>
         && ValidValue(env, field) && ValidList(env, list)
         && (negation.Some? ==> negation.value != "" && IsSpaces(negation.value))
         && IsSpaces(before) && IsSpaces(after) && IsSpaces(inner) && IsSpaces(outer)
       case Circled(before, floats) => IsSpaces(before) && floats != [] && ValidFloats(floats)
       case Boxed(before, points) => IsSpaces(before) && points != [] && ValidPoints(points)
  }

  // ---------- Filters ----------

  datatype Written =
    | Single(leaf: WrittenLeaf)
    | Grouped(before: string, open: string, inner: Written, close: string, after: string)
    | Negated(before: string, after: string, inner: Written)
    | Chained(word: string, first: Written, links: seq<Link>)

  /** An operand with the connective in front of it. */
  datatype Link = Link(before: string, after: string, operand: Written)

  function Show(w: Written): string
    decreases w
  {
    match w
    case Single(leaf) => ShowLeaf(leaf)
    case Grouped(before, open, inner, close, after) =>
      before + ("(" + (open + (Show(inner) + (close + (")" + after)))))
    case Negated(before, after, inner) => before + ("NOT" + (after + Show(inner)))
    case Chained(word, first, links) => Show(first) + ShowLinks(word, links)
  }

  function ShowLinks(word: string, links: seq<Link>): string
    decreases links
  {
    if links == [] then ""
    else links[0].before + (word + (links[0].after + (Show(links[0].operand) + ShowLinks(word, links[1..]))))
  }

  /** The tree of a text; with `collapse` a double negation is no negation. */
  function Meaning(env: Env, collapse: bool, w: Written): Filter
    decreases w
  {
    match w
    case Single(leaf) =>
      var f := LeafMeaning(env, leaf);
      if f.Some? then f.value else Or([])
    case Grouped(_, _, inner, _, _) => Meaning(env, collapse, inner)
    case Negated(_, _, inner) =>
      var f := Meaning(env, collapse, inner);
      if collapse && f.Not? then f.inner else Not(f)
    case Chained(word, first, links) =>
      var operands := [Meaning(env, collapse, first)] + LinkMeanings(env, collapse, links);
      if word == "AND" then And(operands) else Or(operands)
  }

  function LinkMeanings(env: Env, collapse: bool, links: seq<Link>): (r: seq<Filter>)
    ensures |r| == |links|
    decreases links
  {
    if links == [] then []
    else [Meaning(env, collapse, links[0].operand)] + LinkMeanings(env, collapse, links[1..])
  }

  /** or = and ("OR" and)* */
  predicate ValidOr(env: Env, w: Written)
    decreases w, 4
  {
    if w.Chained? && w.word == "OR" then w.links != [] && ValidAnd(env, w.first) && ValidAndLinks(env, w.links)
    else ValidAnd(env, w)
  }

  predicate ValidAndLinks(env: Env, links: seq<Link>)
    decreases links, 0
  {
    links == [] ||
    (&& IsSpaces(links[0].before) && IsSpaces(links[0].after) && ValidAnd(env, links[0].operand)
     && ValidAndLinks(env, links[1..]))
  }

  /** and = not ("AND" not)* */
  predicate ValidAnd(env: Env, w: Written)
    decreases w, 3
  {
    if w.Chained? then w.word == "AND" && w.links != [] && ValidNot(env, w.first) && ValidNotLinks(env, w.links)
    else ValidNot(env, w)
  }

  predicate ValidNotLinks(env: Env, links: seq<Link>)
    decreases links, 0
  {
    links == [] ||
    (&& IsSpaces(links[0].before) && IsSpaces(links[0].after) && ValidNot(env, links[0].operand)
     && ValidNotLinks(env, links[1..]))
  }

  /** not = ("NOT" not) | primary; primary = "(" or ")" | leaf */
  predicate ValidNot(env: Env, w: Written)
    decreases w, 2
  {
    match w
    case Single(leaf) => ValidLeaf(env, leaf)
    case Grouped(before, open, inner, close, after) =>
      IsSpaces(before) && IsSpaces(open) && IsSpaces(close) && IsSpaces(after) && ValidOr(env, inner)
    case Negated(before, after, inner) => IsSpaces(before) && IsSpaces(after) && ValidNot(env, inner)
    case Chained(_, _, _) => false
  }
}

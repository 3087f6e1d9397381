/**
 Printing filters and parsing them back, with the exact depth budget
 (crates/filter-parser/src/lib.rs).

 `Syntax` is what a user writes: leaves in their positive or negated form, parentheses, `NOT`,
 `AND` and `OR` in the layers of the grammar.  `SyntaxParses` says what the parser does with any
 such text at any depth, in both directions: the tree when the depth suffices, the depth error
 otherwise.  The round trip of filter trees and the limits on nesting follow from it.
 */
module FilterRoundTrip {
  import opened FilterSyntax
  import opened FilterLexer
  import opened FilterQuoting
  import opened FilterGeo
  import opened FilterParser
  import opened FilterPrinter

  datatype Syntax =
    | Leaf(negated: bool, leaf: Filter)
    | Paren(inner: Syntax)
    | Neg(inner: Syntax)
    | Conj(parts: seq<Syntax>)
    | Disj(parts: seq<Syntax>)

  /** What may stand after `NOT` and between `AND`s. */
  predicate IsUnary(e: Syntax) {
    e.Leaf? || e.Paren? || e.Neg?
  }

  predicate WellFormed(e: Syntax)
    decreases e
  {
    match e
    case Leaf(negated, leaf) => Printable(negated, leaf)
    case Paren(x) => WellFormed(x)
    case Neg(x) => IsUnary(x) && WellFormed(x)
    case Conj(es) => |es| >= 2 && UnaryAll(es)
    case Disj(es) => |es| >= 2 && AndAll(es)
  }

  predicate UnaryAll(es: seq<Syntax>)
    decreases es
  {
    es == [] || (IsUnary(es[0]) && WellFormed(es[0]) && UnaryAll(es[1..]))
  }

  predicate AndAll(es: seq<Syntax>)
    decreases es
  {
    es == [] || (!es[0].Disj? && WellFormed(es[0]) && AndAll(es[1..]))
  }

  function Text(style: Style, e: Syntax): string
    requires WellFormed(e)
    decreases e
  {
    match e
    case Leaf(negated, leaf) => LeafText(style, negated, leaf)
    case Paren(x) => "(" + (style.pad + (Text(style, x) + (style.pad + ")")))
    case Neg(x) => "NOT" + (style.gap + Text(style, x))
    case Conj(es) => assert UnaryAll(es); Text(style, es[0]) + AndText(style, es[1..])
    case Disj(es) => assert AndAll(es); Text(style, es[0]) + OrText(style, es[1..])
  }

  function AndText(style: Style, es: seq<Syntax>): string
    requires UnaryAll(es)
    decreases es
  {
    if es == [] then "" else style.gap + "AND" + style.gap + Text(style, es[0]) + AndText(style, es[1..])
  }

  function OrText(style: Style, es: seq<Syntax>): string
    requires AndAll(es)
    decreases es
  {
    if es == [] then "" else style.gap + "OR" + style.gap + Text(style, es[0]) + OrText(style, es[1..])
  }

  /** The tree the text stands for. */
  function Tree(collapse: bool, e: Syntax): Filter
    decreases e
  {
    match e
    case Leaf(negated, leaf) => LeafTree(negated, leaf)
    case Paren(x) => Tree(collapse, x)
    case Neg(x) => Negate(collapse, Tree(collapse, x))
    case Conj(es) => And(Trees(collapse, es))
    case Disj(es) => Or(Trees(collapse, es))
  }

  function Trees(collapse: bool, es: seq<Syntax>): (fs: seq<Filter>)
    ensures |fs| == |es|
    decreases es
  {
    if es == [] then [] else [Tree(collapse, es[0])] + Trees(collapse, es[1..])
  }

  // ---------- Depth needed by each layer of the grammar ----------

  function NeedNot(e: Syntax): nat
    decreases e, 0
  {
    match e
    case Neg(x) => 1 + NeedNot(x)
    case Paren(x) => 2 + NeedOr(x)
    case _ => 1
  }

  function NeedAnd(e: Syntax): nat
    decreases e, 1
  {
    match e
    case Conj(es) => 1 + NeedNots(es)
    case _ => 1 + NeedNot(e)
  }

  function NeedOr(e: Syntax): nat
    decreases e, 2
  {
    match e
    case Disj(es) => 1 + NeedAnds(es)
    case _ => 1 + NeedAnd(e)
  }

  function NeedNots(es: seq<Syntax>): nat
    decreases es
  {
    if es == [] then 0 else Max(NeedNot(es[0]), NeedNots(es[1..]))
  }

  function NeedAnds(es: seq<Syntax>): nat
    decreases es
  {
    if es == [] then 0 else Max(NeedAnd(es[0]), NeedAnds(es[1..]))
  }

  lemma NeedOrOfUnary(e: Syntax)
    requires IsUnary(e)
    ensures NeedOr(e) == 2 + NeedNot(e)
  {
  }

  /** The parser returns the tree if the depth suffices, and the depth error otherwise. */
  ghost predicate Outcome(r: IResult<Filter>, deepest: nat, rest: string, f: Filter) {
    if deepest <= MAX_FILTER_DEPTH then Reads(r, rest, f) else r.DepthError()
  }

  ghost predicate OutcomeAll(r: IResult<seq<Filter>>, deepest: nat, rest: string, fs: seq<Filter>) {
    if deepest <= MAX_FILTER_DEPTH then r.Ok? && r.out == fs && Follows(r.rem, rest) else r.DepthError()
  }

  /** The word does not come next. */
  predicate NoWord(env: Env, word: string, rest: string) {
    WsWord(env, word, rest).Error?
  }

  // ---------- Facts about single steps ----------

  /** Whether the spaces were already taken makes no difference to `ws(word)`. */
  lemma FollowsWord(env: Env, word: string, rem: string, rest: string)
    requires Follows(rem, rest)
    ensures WsWord(env, word, rem) == WsWord(env, word, rest)
  {
  }

  lemma FollowsTag(tag: string, rem: string, rest: string)
    requires Follows(rem, rest)
    ensures WsTag(tag, rem) == WsTag(tag, rest)
  {
  }

  lemma {:induction false} TextStarts(style: Style, e: Syntax)
    requires style.Valid() && WellFormed(e)
    ensures var t := Text(style, e); t != "" && (IsQuote(t[0]) || t[0] in {'(', 'N', '_'})
    decreases e
  {
    hide LeafText;
    match e
    case Leaf(negated, leaf) => LeafStarts(style, negated, leaf);
    case Paren(_) =>
    case Neg(_) =>
    case Conj(es) => TextStarts(style, es[0]);
    case Disj(es) => TextStarts(style, es[0]);
  }

  lemma LeafStarts(style: Style, negated: bool, leaf: Filter)
    requires Printable(negated, leaf)
    ensures var t := LeafText(style, negated, leaf); t != "" && (t[0] == style.quote || t[0] == '_')
  {
    if IsGeo(leaf) {
      GeoTextStarts(style.pad, leaf);
    }
  }

  /** A keyword between spaces is taken, together with the spaces. */
  lemma WordTaken(env: Env, gap: string, word: string, t: string)
    requires env.Valid() && IsGap(gap) && IsLetters(word) && word != ""
    requires t != "" && !IsMultispace(t[0])
    ensures WsWord(env, word, word + (gap + t)) == Ok(t, ())
  {
    var s := word + (gap + t);
    SpacedEndsWord(env, gap, t);
    LettersAreWord(env, word);
    WordEndsAt(env, word, gap + t);
    assert s[0] == word[0];
    SkipNothing(s);
    SkipTo(gap, t);
    hide WordLength, SkipMultispace, IsWord;
  }

  lemma SpacedWordTaken(env: Env, gap: string, word: string, t: string)
    requires env.Valid() && IsGap(gap) && IsLetters(word) && word != ""
    requires t != "" && !IsMultispace(t[0])
    ensures WsWord(env, word, gap + (word + (gap + t))) == Ok(t, ())
  {
    hide WsWord;
    WordTaken(env, gap, word, t);
    WordAfterSpaces(env, word, gap, word + (gap + t));
  }

  lemma OpenTaken(pad: string, t: string)
    requires IsSpaces(pad) && t != "" && !IsMultispace(t[0])
    ensures WsTag("(", "(" + (pad + t)) == Ok(t, ())
  {
    SkipNothing("(" + (pad + t));
    TagTaken("(", pad + t);
    SkipTo(pad, t);
    hide Tag, SkipMultispace;
  }

  lemma CloseTaken(pad: string, rest: string)
    requires IsSpaces(pad)
    ensures WsTag(")", pad + (")" + rest)) == Ok(SkipMultispace(rest), ())
  {
    SkipTo(pad, ")" + rest);
    TagTaken(")", rest);
    hide Tag, SkipMultispace;
  }

  lemma NoWordAtClose(env: Env, pad: string, word: string, rest: string)
    requires IsSpaces(pad) && word != "" && word[0] != ')'
    ensures NoWord(env, word, pad + (")" + rest))
  {
    SkipTo(pad, ")" + rest);
    WordMismatch(env, word, ")" + rest, 0);
    hide SkipMultispace, WordExact;
  }

  lemma NoAndAtOr(env: Env, gap: string, rest: string)
    requires IsSpaces(gap)
    ensures NoWord(env, "AND", gap + ("OR" + rest))
  {
    SkipTo(gap, "OR" + rest);
    WordMismatch(env, "AND", "OR" + rest, 0);
    hide SkipMultispace, WordExact;
  }

  // ---------- The grammar, layer by layer ----------

  lemma LeafAtDepth(env: Env, c: bool, style: Style, negated: bool, leaf: Filter, rest: string, depth: nat)
    requires env.Valid() && style.Valid() && Printable(negated, leaf)
    ensures Outcome(ParseNot(env, c, LeafText(style, negated, leaf) + rest, depth), depth + 1, rest,
                    LeafTree(negated, leaf))
  {
    hide LeafText, ParsePrimary, ParseLeaf, WsWord, WsTag, SkipMultispace, ParseNot, Printable;
    var s := LeafText(style, negated, leaf) + rest;
    LeafIsPrimary(env, style, negated, leaf, rest);
    LeafParses(env, style, negated, leaf, rest);
    NoNotStep(env, c, s, depth);
    PrimaryLeaf(env, c, s, depth + 1);
  }

  lemma NotStep(env: Env, c: bool, s: string, t: string, depth: nat)
    requires WsWord(env, "NOT", s) == Ok(t, ())
    ensures ParseNot(env, c, s, depth) ==
            if depth > MAX_FILTER_DEPTH then Error(DepthLimitReached)
            else
              var r := ParseNot(env, c, t, depth + 1);
              if r.Ok? then Ok(r.rem, Negate(c, r.out)) else r.Cut()
  {
  }

  lemma NoNotStep(env: Env, c: bool, s: string, depth: nat)
    requires WsWord(env, "NOT", s).Error?
    ensures ParseNot(env, c, s, depth) ==
            if depth > MAX_FILTER_DEPTH then Error(DepthLimitReached) else ParsePrimary(env, c, s, depth + 1)
  {
  }

  lemma {:induction false} UnaryParses(env: Env, c: bool, style: Style, e: Syntax, rest: string, depth: nat)
    requires env.Valid() && style.Valid() && WellFormed(e) && IsUnary(e)
    ensures Outcome(ParseNot(env, c, Text(style, e) + rest, depth), depth + NeedNot(e), rest, Tree(c, e))
    decreases e, 0
  {
    hide LeafText, ParseNot, ParsePrimary, WsWord, SkipMultispace;
    match e
    case Leaf(negated, leaf) =>
      LeafAtDepth(env, c, style, negated, leaf, rest, depth);
    case Neg(x) =>
      NegText(style, x, rest);
      var t := Text(style, x) + rest;
      WordTaken(env, style.gap, "NOT", t);
      NotStep(env, c, "NOT" + (style.gap + t), t, depth);
      UnaryParses(env, c, style, x, rest, depth + 1);
    case Paren(x) =>
      ParenText(style, x, rest);
      var t := style.pad + (Text(style, x) + (style.pad + (")" + rest)));
      ParenParses(env, c, style, x, rest, depth + 1);
      NoNotAtOpen(env, t);
      NoNotStep(env, c, "(" + t, depth);
  }

  lemma NegText(style: Style, x: Syntax, rest: string)
    requires style.Valid() && WellFormed(Neg(x))
    ensures var t := Text(style, x) + rest;
            Text(style, Neg(x)) + rest == "NOT" + (style.gap + t) && t != "" && !IsMultispace(t[0])
  {
    hide Printable, LeafText, LeafTree;
    assert Text(style, Neg(x)) == "NOT" + (style.gap + Text(style, x));
    hide Text;
    TextStarts(style, x);
    Assoc("NOT", style.gap + Text(style, x), rest);
    Assoc(style.gap, Text(style, x), rest);
  }

  lemma ParenText(style: Style, x: Syntax, rest: string)
    requires WellFormed(x)
    ensures WellFormed(Paren(x))
    ensures Text(style, Paren(x)) + rest == "(" + (style.pad + (Text(style, x) + (style.pad + (")" + rest))))
  {
    var t, pad := Text(style, x), style.pad;
    assert Text(style, Paren(x)) == "(" + (pad + (t + (pad + ")")));
    hide Text, WellFormed;
    Assoc("(", pad + (t + (pad + ")")), rest);
    Assoc(pad, t + (pad + ")"), rest);
    Assoc(t, pad + ")", rest);
    Assoc(pad, ")", rest);
  }

  lemma NoNotAtOpen(env: Env, t: string)
    ensures WsWord(env, "NOT", "(" + t).Error?
  {
  }

  lemma PrimaryLeaf(env: Env, c: bool, s: string, depth: nat)
    requires WsTag("(", s).Error? && ParseLeaf(env, s).Ok?
    ensures ParsePrimary(env, c, s, depth) ==
            if depth > MAX_FILTER_DEPTH then Error(DepthLimitReached) else ParseLeaf(env, s)
  {
    hide WsTag, ParseLeaf, ParseOr;
  }

  lemma {:induction false} ParenParses(env: Env, c: bool, style: Style, x: Syntax, rest: string, depth: nat)
    requires env.Valid() && style.Valid() && WellFormed(x)
    ensures var s := "(" + (style.pad + (Text(style, x) + (style.pad + (")" + rest))));
            Outcome(ParsePrimary(env, c, s, depth), depth + 1 + NeedOr(x), rest, Tree(c, x))
    decreases x, 3
  {
    hide ParseOr, WsTag, SkipMultispace, ParseLeaf, Text, Tree, Printable, NeedOr;
    var close := style.pad + (")" + rest);
    var t := Text(style, x) + close;
    TextStarts(style, x);
    if depth <= MAX_FILTER_DEPTH {
      OpenTaken(style.pad, t);
      NoWordAtClose(env, style.pad, "AND", rest);
      NoWordAtClose(env, style.pad, "OR", rest);
      OrParses(env, c, style, x, close, depth + 1);
      var r := ParseOr(env, c, t, depth + 1);
      if r.Ok? {
        FollowsTag(")", r.rem, close);
        CloseTaken(style.pad, rest);
      }
    }
  }

  lemma {:induction false} AndParses(env: Env, c: bool, style: Style, e: Syntax, rest: string, depth: nat)
    requires env.Valid() && style.Valid() && WellFormed(e) && !e.Disj?
    requires NoWord(env, "AND", rest)
    ensures Outcome(ParseAnd(env, c, Text(style, e) + rest, depth), depth + NeedAnd(e), rest, Tree(c, e))
    decreases e, 1
  {
    hide ParseAnd, ParseNot, MoreAnds, NoWord, SkipMultispace, Text, Tree;
    if e.Conj? {
      ConjParses(env, c, style, e, rest, depth);
    } else {
      UnaryParses(env, c, style, e, rest, depth + 1);
      AndStep(env, c, Text(style, e) + rest, depth);
      var first := ParseNot(env, c, Text(style, e) + rest, depth + 1);
      if depth <= MAX_FILTER_DEPTH && first.Ok? {
        NoMoreAnds(env, c, first.rem, rest, depth);
      }
    }
  }

  lemma ChainTrees(c: bool, es: seq<Syntax>)
    requires |es| >= 2
    ensures Tree(c, Conj(es)) == And([Tree(c, es[0])] + Trees(c, es[1..]))
    ensures Tree(c, Disj(es)) == Or([Tree(c, es[0])] + Trees(c, es[1..]))
    ensures Trees(c, es[1..]) != []
  {
  }

  lemma {:induction false} ConjParses(env: Env, c: bool, style: Style, e: Syntax, rest: string, depth: nat)
    requires env.Valid() && style.Valid() && WellFormed(e) && e.Conj?
    requires NoWord(env, "AND", rest)
    ensures Outcome(ParseAnd(env, c, Text(style, e) + rest, depth), depth + NeedAnd(e), rest, Tree(c, e))
    decreases e, 0
  {
    hide ParseAnd, ParseNot, MoreAnds, NoWord, SkipMultispace, Text, Tree, Trees, AndText;
    var es := e.parts;
    ChainTrees(c, es);
    var more := AndText(style, es[1..]) + rest;
    ConjText(style, es, rest);
    UnaryParses(env, c, style, es[0], more, depth + 1);
    AndStep(env, c, Text(style, es[0]) + more, depth);
    var first := ParseNot(env, c, Text(style, es[0]) + more, depth + 1);
    if depth <= MAX_FILTER_DEPTH && first.Ok? {
      MoreAndsParse(env, c, style, es[1..], rest, first.rem, depth);
    }
  }

  lemma AndStep(env: Env, c: bool, s: string, depth: nat)
    ensures ParseAnd(env, c, s, depth) ==
            if depth > MAX_FILTER_DEPTH then Error(DepthLimitReached)
            else
              var first := ParseNot(env, c, s, depth + 1);
              if !first.Ok? then first
              else
                var more := MoreAnds(env, c, first.rem, depth);
                if !more.Ok? then more.PropagateFailure()
                else Ok(more.rem, if more.out == [] then first.out else And([first.out] + more.out))
  {
  }

  lemma ConjText(style: Style, es: seq<Syntax>, rest: string)
    requires WellFormed(Conj(es))
    ensures |es| >= 2 && UnaryAll(es)
    ensures Text(style, Conj(es)) + rest == Text(style, es[0]) + (AndText(style, es[1..]) + rest)
  {
    assert Text(style, Conj(es)) == Text(style, es[0]) + AndText(style, es[1..]);
    hide Text, AndText;
    Assoc(Text(style, es[0]), AndText(style, es[1..]), rest);
  }

  lemma NoMoreAnds(env: Env, c: bool, s: string, rest: string, depth: nat)
    requires depth <= MAX_FILTER_DEPTH && Follows(s, rest) && NoWord(env, "AND", rest)
    ensures MoreAnds(env, c, s, depth) == Ok(s, [])
  {
  }

  lemma Spaced(gap: string, word: string, text: string, more: string, rest: string)
    ensures gap + word + gap + text + more + rest == gap + (word + (gap + (text + (more + rest))))
  {
  }

  lemma AndTextUnfolds(style: Style, es: seq<Syntax>, rest: string)
    requires UnaryAll(es) && es != [] && style.Valid()
    ensures var t := Text(style, es[0]) + (AndText(style, es[1..]) + rest);
            && AndText(style, es) + rest == style.gap + ("AND" + (style.gap + t))
            && t != "" && !IsMultispace(t[0])
  {
    hide Text;
    TextStarts(style, es[0]);
    var text, more := Text(style, es[0]), AndText(style, es[1..]);
    assert AndText(style, es) == style.gap + "AND" + style.gap + text + more;
    hide *;
    Spaced(style.gap, "AND", text, more, rest);
  }

  lemma {:induction false} MoreAndsParse(env: Env, c: bool, style: Style, es: seq<Syntax>, rest: string, s: string,
                                         depth: nat)
    requires env.Valid() && style.Valid() && UnaryAll(es) && depth <= MAX_FILTER_DEPTH
    requires NoWord(env, "AND", rest)
    requires Follows(s, AndText(style, es) + rest)
    ensures es == [] ==> MoreAnds(env, c, s, depth) == Ok(s, [])
    ensures es != [] ==> OutcomeAll(MoreAnds(env, c, s, depth), depth + 1 + NeedNots(es), rest, Trees(c, es))
    decreases es, 0
  {
    hide ParseNot, WsWord, SkipMultispace, Text, AndText, NoWord, Tree;
    if es == [] {
      assert AndText(style, es) == "" by { AndTextNil(style); }
      assert AndText(style, es) + rest == rest;
      NoMoreAnds(env, c, s, rest, depth);
    } else {
      var more := AndText(style, es[1..]) + rest;
      var t := Text(style, es[0]) + more;
      AndTextUnfolds(style, es, rest);
      FollowsWord(env, "AND", s, AndText(style, es) + rest);
      SpacedWordTaken(env, style.gap, "AND", t);
      UnaryParses(env, c, style, es[0], more, depth + 1);
      var f := ParseNot(env, c, t, depth + 1);
      if f.Ok? {
        MoreAndsParse(env, c, style, es[1..], rest, f.rem, depth);
        if es[1..] == [] {
          assert AndText(style, es[1..]) == "" by { AndTextNil(style); }
          assert more == rest;
        }
      }
    }
  }

  lemma AndTextNil(style: Style)
    ensures UnaryAll([]) && AndText(style, []) == ""
  {
  }

  lemma {:induction false} OrParses(env: Env, c: bool, style: Style, e: Syntax, rest: string, depth: nat)
    requires env.Valid() && style.Valid() && WellFormed(e)
    requires NoWord(env, "AND", rest) && NoWord(env, "OR", rest)
    ensures Outcome(ParseOr(env, c, Text(style, e) + rest, depth), depth + NeedOr(e), rest, Tree(c, e))
    decreases e, 2
  {
    hide ParseOr, ParseAnd, MoreOrs, NoWord, SkipMultispace, Text, Tree;
    if e.Disj? {
      DisjParses(env, c, style, e, rest, depth);
    } else {
      AndParses(env, c, style, e, rest, depth + 1);
      OrStep(env, c, Text(style, e) + rest, depth);
      var first := ParseAnd(env, c, Text(style, e) + rest, depth + 1);
      if depth <= MAX_FILTER_DEPTH && first.Ok? {
        NoMoreOrs(env, c, first.rem, rest, depth);
      }
    }
  }

  lemma {:induction false} DisjParses(env: Env, c: bool, style: Style, e: Syntax, rest: string, depth: nat)
    requires env.Valid() && style.Valid() && WellFormed(e) && e.Disj?
    requires NoWord(env, "AND", rest) && NoWord(env, "OR", rest)
    ensures Outcome(ParseOr(env, c, Text(style, e) + rest, depth), depth + NeedOr(e), rest, Tree(c, e))
    decreases e, 0
  {
    hide ParseOr, ParseAnd, MoreOrs, NoWord, SkipMultispace, Text, Tree, Trees, OrText;
    var es := e.parts;
    ChainTrees(c, es);
    var more := OrText(style, es[1..]) + rest;
    DisjText(style, es, rest);
    NoAndBeforeOr(env, style, es[1..], rest);
    AndParses(env, c, style, es[0], more, depth + 1);
    OrStep(env, c, Text(style, es[0]) + more, depth);
    var first := ParseAnd(env, c, Text(style, es[0]) + more, depth + 1);
    if depth <= MAX_FILTER_DEPTH && first.Ok? {
      MoreOrsParse(env, c, style, es[1..], rest, first.rem, depth);
    }
  }

  lemma OrStep(env: Env, c: bool, s: string, depth: nat)
    ensures ParseOr(env, c, s, depth) ==
            if depth > MAX_FILTER_DEPTH then Error(DepthLimitReached)
            else
              var first := ParseAnd(env, c, s, depth + 1);
              if !first.Ok? then first
              else
                var more := MoreOrs(env, c, first.rem, depth);
                if !more.Ok? then more.PropagateFailure()
                else Ok(more.rem, if more.out == [] then first.out else Or([first.out] + more.out))
  {
  }

  lemma DisjText(style: Style, es: seq<Syntax>, rest: string)
    requires WellFormed(Disj(es))
    ensures |es| >= 2 && AndAll(es)
    ensures Text(style, Disj(es)) + rest == Text(style, es[0]) + (OrText(style, es[1..]) + rest)
  {
    assert Text(style, Disj(es)) == Text(style, es[0]) + OrText(style, es[1..]);
    hide Text, OrText;
    Assoc(Text(style, es[0]), OrText(style, es[1..]), rest);
  }

  lemma NoAndBeforeOr(env: Env, style: Style, es: seq<Syntax>, rest: string)
    requires AndAll(es) && style.Valid() && (es != [] || NoWord(env, "AND", rest))
    ensures NoWord(env, "AND", OrText(style, es) + rest)
  {
    hide NoWord;
    if es == [] {
      assert OrText(style, es) + rest == rest;
    } else {
      OrTextUnfolds(style, es, rest);
      NoAndAtOr(env, style.gap, style.gap + (Text(style, es[0]) + (OrText(style, es[1..]) + rest)));
      hide OrText, Text;
    }
  }

  lemma NoMoreOrs(env: Env, c: bool, s: string, rest: string, depth: nat)
    requires depth <= MAX_FILTER_DEPTH && Follows(s, rest) && NoWord(env, "OR", rest)
    ensures MoreOrs(env, c, s, depth) == Ok(s, [])
  {
  }

  lemma OrTextUnfolds(style: Style, es: seq<Syntax>, rest: string)
    requires AndAll(es) && es != [] && style.Valid()
    ensures var t := Text(style, es[0]) + (OrText(style, es[1..]) + rest);
            && OrText(style, es) + rest == style.gap + ("OR" + (style.gap + t))
            && t != "" && !IsMultispace(t[0])
  {
    hide Text;
    TextStarts(style, es[0]);
    var text, more := Text(style, es[0]), OrText(style, es[1..]);
    assert OrText(style, es) == style.gap + "OR" + style.gap + text + more;
    hide *;
    Spaced(style.gap, "OR", text, more, rest);
  }

  lemma {:induction false} MoreOrsParse(env: Env, c: bool, style: Style, es: seq<Syntax>, rest: string, s: string,
                                        depth: nat)
    requires env.Valid() && style.Valid() && AndAll(es) && depth <= MAX_FILTER_DEPTH
    requires NoWord(env, "AND", rest) && NoWord(env, "OR", rest)
    requires Follows(s, OrText(style, es) + rest)
    ensures es == [] ==> MoreOrs(env, c, s, depth) == Ok(s, [])
    ensures es != [] ==> OutcomeAll(MoreOrs(env, c, s, depth), depth + 1 + NeedAnds(es), rest, Trees(c, es))
    decreases es, 1
  {
    hide ParseAnd, WsWord, SkipMultispace, Text, OrText, NoWord, Tree;
    if es == [] {
      assert OrText(style, es) == "" by { OrTextNil(style); }
      assert OrText(style, es) + rest == rest;
      NoMoreOrs(env, c, s, rest, depth);
    } else {
      var more := OrText(style, es[1..]) + rest;
      var t := Text(style, es[0]) + more;
      OrTextUnfolds(style, es, rest);
      FollowsWord(env, "OR", s, OrText(style, es) + rest);
      SpacedWordTaken(env, style.gap, "OR", t);
      NoAndBeforeOr(env, style, es[1..], rest);
      AndParses(env, c, style, es[0], more, depth + 1);
      var f := ParseAnd(env, c, t, depth + 1);
      if f.Ok? {
        MoreOrsParse(env, c, style, es[1..], rest, f.rem, depth);
        if es[1..] == [] {
          assert OrText(style, es[1..]) == "" by { OrTextNil(style); }
          assert more == rest;
        }
      }
    }
  }

  lemma OrTextNil(style: Style)
    ensures AndAll([]) && OrText(style, []) == ""
  {
  }

  /**
   Every well-formed text is parsed to the tree it stands for if and only if the depth it needs is
   within the limit; otherwise the parser reports the depth limit.
   */
  lemma SyntaxParses(env: Env, c: bool, style: Style, e: Syntax)
    requires env.Valid() && style.Valid() && WellFormed(e)
    ensures if NeedOr(e) <= MAX_FILTER_DEPTH
            then ParseFilter(env, c, Text(style, e)) == Ok("", Tree(c, e))
            else ParseFilter(env, c, Text(style, e)).DepthError()
  {
    hide ParseOr, Text;
    assert NoWord(env, "AND", "") && NoWord(env, "OR", "");
    OrParses(env, c, style, e, "", 0);
    assert Text(style, e) + "" == Text(style, e);
  }

  // ---------- Round trip of filter trees ----------

  /** A tree whose geo filters are about floats. */
  predicate PrintableTree(f: Filter)
    decreases f
  {
    match f
    case Not(g) => PrintableTree(g)
    case Or(fs) => PrintableTrees(fs)
    case And(fs) => PrintableTrees(fs)
    case _ => Printable(false, f)
  }

  predicate PrintableTrees(fs: seq<Filter>)
    decreases fs
  {
    fs == [] || (PrintableTree(fs[0]) && PrintableTrees(fs[1..]))
  }

  /** Every operand that is not a leaf is put in parentheses. */
  function ToSyntax(f: Filter): Syntax
    decreases f, 0
  {
    match f
    case Not(g) => Neg(Operand(g))
    case Or(fs) => Disj(Operands(fs))
    case And(fs) => Conj(Operands(fs))
    case _ => Leaf(false, f)
  }

  function Operand(f: Filter): Syntax
    decreases f, 1
  {
    if IsLeaf(f) then Leaf(false, f) else Paren(ToSyntax(f))
  }

  function Operands(fs: seq<Filter>): (es: seq<Syntax>)
    ensures |es| == |fs|
    decreases fs
  {
    if fs == [] then [] else [Operand(fs[0])] + Operands(fs[1..])
  }

  function Print(style: Style, f: Filter): string
    requires NormalForm(f) && PrintableTree(f)
  {
    ToSyntaxFaithful(f);
    Text(style, ToSyntax(f))
  }

  /** Depth needed by the printed tree: three levels for a leaf, four more for each parenthesis. */
  function Budget(f: Filter): nat
    decreases f
  {
    match f
    case Not(g) => if IsLeaf(g) then 4 else 5 + Budget(g)
    case Or(fs) => BudgetOf(fs)
    case And(fs) => BudgetOf(fs)
    case _ => 3
  }

  function BudgetOf(fs: seq<Filter>): nat
    decreases fs
  {
    if fs == [] then 2 else Max(if IsLeaf(fs[0]) then 3 else 4 + Budget(fs[0]), BudgetOf(fs[1..]))
  }

  lemma {:induction false} ToSyntaxFaithful(f: Filter)
    requires NormalForm(f) && PrintableTree(f)
    ensures WellFormed(ToSyntax(f)) && Tree(true, ToSyntax(f)) == f
    ensures NeedOr(ToSyntax(f)) == Budget(f)
    decreases f, 0
  {
    match f
    case Not(g) => OperandFaithful(g); NeedOrOfUnary(ToSyntax(f));
    case Or(fs) => OperandsFaithful(fs);
    case And(fs) => OperandsFaithful(fs);
    case _ => NeedOrOfUnary(Leaf(false, f));
  }

  lemma {:induction false} OperandFaithful(f: Filter)
    requires NormalForm(f) && PrintableTree(f)
    ensures WellFormed(Operand(f)) && IsUnary(Operand(f)) && Tree(true, Operand(f)) == f
    ensures NeedNot(Operand(f)) == if IsLeaf(f) then 1 else 2 + Budget(f)
    decreases f, 1
  {
    if !IsLeaf(f) {
      ToSyntaxFaithful(f);
    }
  }

  lemma {:induction false} OperandsFaithful(fs: seq<Filter>)
    requires AllNormal(fs) && PrintableTrees(fs)
    ensures UnaryAll(Operands(fs)) && AndAll(Operands(fs)) && Trees(true, Operands(fs)) == fs
    ensures 2 + NeedNots(Operands(fs)) == BudgetOf(fs)
    ensures fs != [] ==> 1 + NeedAnds(Operands(fs)) == BudgetOf(fs)
    decreases fs
  {
    if fs != [] {
      OperandFaithful(fs[0]);
      OperandsFaithful(fs[1..]);
      var es := Operands(fs);
      assert es[0] == Operand(fs[0]) && es[1..] == Operands(fs[1..]);
    }
  }

  /**
   Parse/print round trip: a tree in normal form, printed with either quote, is parsed back to
   itself if and only if its nesting fits the depth budget.
   */
  lemma PrintParseRoundTrip(env: Env, style: Style, f: Filter)
    requires env.Valid() && style.Valid() && NormalForm(f) && PrintableTree(f)
    ensures if Budget(f) <= MAX_FILTER_DEPTH
            then ParseFilter(env, true, Print(style, f)) == Ok("", f)
            else ParseFilter(env, true, Print(style, f)).DepthError()
  {
    hide ParseFilter, Text, Tree;
    ToSyntaxFaithful(f);
    SyntaxParses(env, true, style, ToSyntax(f));
  }

  // ---------- Exact limits on nesting ----------

  function Repeat(n: nat, s: string): string {
    if n == 0 then "" else s + Repeat(n - 1, s)
  }

  function Parens(n: nat, e: Syntax): Syntax {
    if n == 0 then e else Paren(Parens(n - 1, e))
  }

  function Nots(n: nat, e: Syntax): Syntax {
    if n == 0 then e else Neg(Nots(n - 1, e))
  }

  lemma {:induction false} RepeatEnd(n: nat, s: string)
    ensures Repeat(n, s) + s == s + Repeat(n, s)
  {
    if n > 0 {
      RepeatEnd(n - 1, s);
      Assoc(s, Repeat(n - 1, s), s);
    }
  }

  lemma Surround(open: string, text: string, close: string, pad: string)
    ensures "(" + (pad + ((open + text + close) + (pad + ")"))) == ("(" + pad) + open + text + (close + (pad + ")"))
  {
  }

  lemma {:induction false} ParensFacts(n: nat, style: Style, leaf: Filter)
    requires Printable(false, leaf)
    ensures var e := Parens(n, Leaf(false, leaf));
            && WellFormed(e)
            && Text(style, e) ==
               Repeat(n, "(" + style.pad) + LeafText(style, false, leaf) + Repeat(n, style.pad + ")")
  {
    hide LeafText, Printable;
    var pad := style.pad;
    var open, close, text := Repeat(n, "(" + pad), Repeat(n, pad + ")"), LeafText(style, false, leaf);
    if n == 0 {
      assert open + text + close == text;
    } else {
      ParensFacts(n - 1, style, leaf);
      var x := Parens(n - 1, Leaf(false, leaf));
      assert Parens(n, Leaf(false, leaf)) == Paren(x);
      assert Text(style, Paren(x)) == "(" + (pad + (Text(style, x) + (pad + ")")));
      assert open == ("(" + pad) + Repeat(n - 1, "(" + pad) && close == (pad + ")") + Repeat(n - 1, pad + ")");
      RepeatEnd(n - 1, pad + ")");
      hide *;
      Surround(Repeat(n - 1, "(" + pad), text, Repeat(n - 1, pad + ")"), pad);
    }
  }

  lemma {:induction false} ParensDepth(n: nat, leaf: Filter)
    ensures var e := Parens(n, Leaf(false, leaf)); NeedOr(e) == 4 * n + 3 && Tree(true, e) == leaf
  {
    NeedOrOfUnary(Parens(n, Leaf(false, leaf)));
    if n > 0 {
      ParensDepth(n - 1, leaf);
    }
  }

  lemma {:induction false} NotsFacts(n: nat, style: Style, leaf: Filter)
    requires Printable(false, leaf)
    ensures var e := Nots(n, Leaf(false, leaf));
            && WellFormed(e) && IsUnary(e)
            && Text(style, e) == Repeat(n, "NOT" + style.gap) + LeafText(style, false, leaf)
            && NeedNot(e) == n + 1
  {
    hide LeafText, Printable;
    var not := "NOT" + style.gap;
    if n == 0 {
      assert Repeat(0, not) + LeafText(style, false, leaf) == LeafText(style, false, leaf);
    } else {
      NotsFacts(n - 1, style, leaf);
      var x, rest, text := Nots(n - 1, Leaf(false, leaf)), Repeat(n - 1, not), LeafText(style, false, leaf);
      assert Nots(n, Leaf(false, leaf)) == Neg(x) && Text(style, Neg(x)) == "NOT" + (style.gap + Text(style, x));
      assert Repeat(n, not) == not + rest;
      hide *;
      Assoc("NOT", style.gap, rest + text);
      Assoc(not, rest, text);
    }
  }

  lemma {:induction false} NotsTree(n: nat, leaf: Filter)
    requires IsLeaf(leaf)
    ensures Tree(true, Nots(n, Leaf(false, leaf))) == if n % 2 == 0 then leaf else Not(leaf)
  {
    if n > 0 {
      NotsTree(n - 1, leaf);
    }
  }

  lemma PrintableIsLeaf(negated: bool, leaf: Filter)
    requires Printable(negated, leaf)
    ensures IsLeaf(leaf)
  {
  }

  /** `n` nested parentheses around a condition are accepted if and only if 4n + 3 <= 200. */
  lemma NestedParentheses(env: Env, n: nat, style: Style, leaf: Filter)
    requires env.Valid() && style.Valid() && Printable(false, leaf)
    ensures var r := ParseFilter(env, true, Repeat(n, "(" + style.pad) + LeafText(style, false, leaf) +
                                     Repeat(n, style.pad + ")"));
            if 4 * n + 3 <= 200 then r == Ok("", leaf) else r.DepthError()
  {
    hide ParseFilter, Text, LeafText;
    ParensFacts(n, style, leaf);
    ParensDepth(n, leaf);
    SyntaxParses(env, true, style, Parens(n, Leaf(false, leaf)));
  }

  /** `n` leading `NOT`s are accepted if and only if n + 3 <= 200, and cancel out in pairs. */
  lemma NestedNots(env: Env, n: nat, style: Style, leaf: Filter)
    requires env.Valid() && style.Valid() && Printable(false, leaf)
    ensures var r := ParseFilter(env, true, Repeat(n, "NOT" + style.gap) + LeafText(style, false, leaf));
            if n + 3 <= 200 then r == Ok("", if n % 2 == 0 then leaf else Not(leaf)) else r.DepthError()
  {
    hide ParseFilter, Text, LeafText;
    NotsFacts(n, style, leaf);
    PrintableIsLeaf(false, leaf);
    NotsTree(n, leaf);
    hide Printable;
    NeedOrOfUnary(Nots(n, Leaf(false, leaf)));
    SyntaxParses(env, true, style, Nots(n, Leaf(false, leaf)));
  }
}

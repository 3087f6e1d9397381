/**
 What every tree returned by the parser looks like, for every input whatsoever: it is in normal
 form, it means the same as the tree built without collapsing `NOT`s, and it is low enough for
 `fids` never to cut it off.
 */
module FilterShape {
  import opened FilterSyntax
  import opened FilterLexer
  import opened FilterParser

  /** Same outcome, same remaining input, and a normal tree with the truth value of the reference tree. */
  ghost predicate Agree(v: Filter -> bool, r: IResult<Filter>, ref: IResult<Filter>) {
    if r.Ok? then
      ref.Ok? && ref.rem == r.rem && NormalForm(r.out) && Eval(v, r.out) == Eval(v, ref.out)
    else
      ref == r
  }

  ghost predicate AgreeAll(v: Filter -> bool, r: IResult<seq<Filter>>, ref: IResult<seq<Filter>>) {
    if r.Ok? then
      && ref.Ok? && ref.rem == r.rem && AllNormal(r.out)
      && |ref.out| == |r.out|
      && EvalAll(v, r.out) == EvalAll(v, ref.out) && EvalAny(v, r.out) == EvalAny(v, ref.out)
    else
      ref == r
  }

  /** The height of a tree without the negation at its root. */
  function CoreHeight(f: Filter): nat {
    if f.Not? then Height(f.inner) else Height(f)
  }

  // Three nodes at most are built for every four levels of the recursion.

  predicate LowOr(f: Filter, depth: nat) {
    4 * (Height(f) - 1) <= 3 * (MAX_FILTER_DEPTH + 1 - depth)
  }

  predicate LowAnd(f: Filter, depth: nat) {
    4 * (Height(f) - 3) <= 3 * (MAX_FILTER_DEPTH - 2 - depth)
  }

  predicate LowNot(f: Filter, depth: nat) {
    4 * (CoreHeight(f) - 1) <= 3 * (MAX_FILTER_DEPTH - 1 - depth)
  }

  predicate LowPrimary(f: Filter, depth: nat) {
    4 * (CoreHeight(f) - 1) <= 3 * (MAX_FILTER_DEPTH - depth)
  }

  lemma ConsFacts(v: Filter -> bool, f: Filter, fs: seq<Filter>)
    ensures EvalAll(v, [f] + fs) == (Eval(v, f) && EvalAll(v, fs))
    ensures EvalAny(v, [f] + fs) == (Eval(v, f) || EvalAny(v, fs))
    ensures AllNormal([f] + fs) == (NormalForm(f) && AllNormal(fs))
    ensures MaxHeight([f] + fs) == Max(Height(f), MaxHeight(fs))
  {
  }

  lemma {:induction false} OrShape(env: Env, v: Filter -> bool, s: string, depth: nat)
    ensures Agree(v, ParseOr(env, true, s, depth), ParseOr(env, false, s, depth))
    ensures var r := ParseOr(env, true, s, depth); r.Ok? ==> LowOr(r.out, depth)
    decreases Fuel(depth), |s| + 1
  {
    hide ParseAnd, MoreOrs, WsWord;
    if depth <= MAX_FILTER_DEPTH {
      AndShape(env, v, s, depth + 1);
      var first, first0 := ParseAnd(env, true, s, depth + 1), ParseAnd(env, false, s, depth + 1);
      if first.Ok? {
        MoreOrsShape(env, v, first.rem, depth);
        var more, more0 := MoreOrs(env, true, first.rem, depth), MoreOrs(env, false, first.rem, depth);
        if more.Ok? {
          ConsFacts(v, first.out, more.out);
          ConsFacts(v, first0.out, more0.out);
        }
      }
    }
  }

  lemma {:induction false} MoreOrsShape(env: Env, v: Filter -> bool, s: string, depth: nat)
    requires depth <= MAX_FILTER_DEPTH
    ensures AgreeAll(v, MoreOrs(env, true, s, depth), MoreOrs(env, false, s, depth))
    ensures var r := MoreOrs(env, true, s, depth);
            r.Ok? ==> 4 * (MaxHeight(r.out) - 3) <= 3 * (MAX_FILTER_DEPTH - 3 - depth) || r.out == []
    decreases Fuel(depth), |s|
  {
    hide ParseAnd, WsWord;
    var word := WsWord(env, "OR", s);
    if word.Ok? {
      AndShape(env, v, word.rem, depth + 1);
      var f, f0 := ParseAnd(env, true, word.rem, depth + 1), ParseAnd(env, false, word.rem, depth + 1);
      if f.Ok? {
        MoreOrsShape(env, v, f.rem, depth);
        var more, more0 := MoreOrs(env, true, f.rem, depth), MoreOrs(env, false, f.rem, depth);
        if more.Ok? {
          ConsFacts(v, f.out, more.out);
          ConsFacts(v, f0.out, more0.out);
        }
      }
    }
  }

  lemma {:induction false} AndShape(env: Env, v: Filter -> bool, s: string, depth: nat)
    ensures Agree(v, ParseAnd(env, true, s, depth), ParseAnd(env, false, s, depth))
    ensures var r := ParseAnd(env, true, s, depth); r.Ok? ==> LowAnd(r.out, depth)
    decreases Fuel(depth), |s| + 1
  {
    hide ParseNot, MoreAnds, WsWord;
    if depth <= MAX_FILTER_DEPTH {
      NotShape(env, v, s, depth + 1);
      var first, first0 := ParseNot(env, true, s, depth + 1), ParseNot(env, false, s, depth + 1);
      if first.Ok? {
        MoreAndsShape(env, v, first.rem, depth);
        var more, more0 := MoreAnds(env, true, first.rem, depth), MoreAnds(env, false, first.rem, depth);
        if more.Ok? {
          ConsFacts(v, first.out, more.out);
          ConsFacts(v, first0.out, more0.out);
        }
      }
    }
  }

  lemma {:induction false} MoreAndsShape(env: Env, v: Filter -> bool, s: string, depth: nat)
    requires depth <= MAX_FILTER_DEPTH
    ensures AgreeAll(v, MoreAnds(env, true, s, depth), MoreAnds(env, false, s, depth))
    ensures var r := MoreAnds(env, true, s, depth);
            r.Ok? ==> 4 * (MaxHeight(r.out) - 2) <= 3 * (MAX_FILTER_DEPTH - 2 - depth) || r.out == []
    decreases Fuel(depth), |s|
  {
    hide ParseNot, WsWord;
    var word := WsWord(env, "AND", s);
    if word.Ok? {
      NotShape(env, v, word.rem, depth + 1);
      var f, f0 := ParseNot(env, true, word.rem, depth + 1), ParseNot(env, false, word.rem, depth + 1);
      if f.Ok? {
        MoreAndsShape(env, v, f.rem, depth);
        var more, more0 := MoreAnds(env, true, f.rem, depth), MoreAnds(env, false, f.rem, depth);
        if more.Ok? {
          ConsFacts(v, f.out, more.out);
          ConsFacts(v, f0.out, more0.out);
        }
      }
    }
  }

  lemma {:induction false} NotShape(env: Env, v: Filter -> bool, s: string, depth: nat)
    ensures Agree(v, ParseNot(env, true, s, depth), ParseNot(env, false, s, depth))
    ensures var r := ParseNot(env, true, s, depth); r.Ok? ==> LowNot(r.out, depth)
    decreases Fuel(depth), |s| + 1
  {
    hide ParsePrimary, WsWord;
    if depth <= MAX_FILTER_DEPTH {
      var word := WsWord(env, "NOT", s);
      if word.Ok? {
        NotShape(env, v, word.rem, depth + 1);
      } else {
        PrimaryShape(env, v, s, depth + 1);
      }
    }
  }

  lemma {:induction false} PrimaryShape(env: Env, v: Filter -> bool, s: string, depth: nat)
    ensures Agree(v, ParsePrimary(env, true, s, depth), ParsePrimary(env, false, s, depth))
    ensures var r := ParsePrimary(env, true, s, depth); r.Ok? ==> LowPrimary(r.out, depth)
    decreases Fuel(depth), |s| + 1
  {
    hide ParseOr, ParseLeaf, WsTag;
    if depth <= MAX_FILTER_DEPTH {
      var open := WsTag("(", s);
      if open.Ok? {
        OrShape(env, v, open.rem, depth + 1);
      } else {
        var leaf := ParseLeaf(env, s);
        assert leaf.Ok? && leaf.out.Not? ==> NormalForm(leaf.out.inner);
      }
    }
  }

  /**
   Normal form and meaning: every tree returned by the parser is in normal form and, under every
   valuation of the leaves, has the truth value of the tree built without collapsing; the parser
   that does not collapse accepts the same inputs and reports the same errors on the others.
   */
  lemma ParsedFilterMeansTheSame(env: Env, v: Filter -> bool, s: string)
    ensures Agree(v, ParseFilter(env, true, s), ParseFilter(env, false, s))
  {
    hide ParseOr;
    OrShape(env, v, s, 0);
  }

  /** The depth given to `fids` never truncates: every field is listed, from left to right. */
  lemma FidsNeverTruncated(env: Env, s: string)
    ensures var r := ParseFilter(env, true, s);
            r.Ok? ==> Height(r.out) <= 151 && Fids(r.out, MAX_FILTER_DEPTH) == AllFids(r.out)
  {
    hide ParseOr;
    OrShape(env, f => true, s, 0);
    var r := ParseFilter(env, true, s);
    if r.Ok? {
      FidsComplete(r.out, MAX_FILTER_DEPTH);
    }
  }
}

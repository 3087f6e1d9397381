/**
 Printing what the parser has returned: for every input, the tree can be printed, and parsing the
 printed text gives the tree again (crates/filter-parser/src/lib.rs).
 */
module FilterReparse {
  import opened FilterSyntax
  import opened FilterLexer
  import opened FilterGeo
  import opened FilterParser
  import opened FilterPrinter
  import opened FilterRoundTrip
  import opened FilterShape

  // ---------- What is recognised as a float is a float ----------

  lemma {:induction false} DigitsCut(s: string, k: nat)
    requires DigitsLength(s) <= k <= |s|
    ensures DigitsLength(s[..k]) == DigitsLength(s)
  {
    if s != "" && IsDigit(s[0]) {
      DigitsCut(s[1..], k - 1);
      assert s[..k][1..] == s[1..][..k - 1];
    }
  }

  lemma MantissaCut(s: string, k: nat)
    requires 0 < MantissaLength(s) <= k <= |s|
    ensures MantissaLength(s[..k]) == MantissaLength(s)
  {
    var n := DigitsLength(s);
    DigitsCut(s, k);
    hide DigitsLength;
    if n < |s| && s[n] == '.' {
      DigitsCut(s[n + 1..], k - n - 1);
      assert s[..k][n + 1..] == s[n + 1..][..k - n - 1];
    }
  }

  lemma ExponentCut(s: string)
    requires ExponentLength(s).Some?
    ensures ExponentLength(s[..ExponentLength(s).value]) == ExponentLength(s)
  {
    var k := ExponentLength(s).value;
    if k > 0 {
      var sign := SignLength(s[1..]);
      assert s[..k][1..] == s[1..][..k - 1];
      DigitsCut(s[1 + sign..], k - 1 - sign);
      assert s[..k][1 + sign..] == s[1 + sign..][..k - 1 - sign];
    }
  }

  lemma RecognizedIsFloat(s: string)
    ensures RecognizeFloat(s).Ok? ==> IsFloat(RecognizeFloat(s).out)
  {
    hide MantissaLength, ExponentLength;
    if RecognizeFloat(s).Ok? {
      var sign := SignLength(s);
      var m := MantissaLength(s[sign..]);
      var e := ExponentLength(s[sign + m..]).value;
      var t := s[..sign + m + e];
      assert SignLength(t) == sign;
      assert t[sign..] == s[sign..][..m + e];
      MantissaCut(s[sign..], m + e);
      assert t[sign + m..] == s[sign + m..][..e];
      ExponentCut(s[sign + m..]);
      assert t[..sign + m + e] == t && t[sign + m + e..] == "";
    }
  }

  lemma {:induction false} MoreFloatsAreFloats(s: string)
    ensures MoreFloats(s).Ok? ==> AllFloats(MoreFloats(s).out)
    decreases |s|
  {
    hide IsFloat, RecognizeFloat;
    if s != "" && s[0] == ',' {
      RecognizedIsFloat(SkipMultispace(s[1..]));
      var float := WsFloat(s[1..]);
      if float.Ok? {
        MoreFloatsAreFloats(float.rem);
      }
    }
  }

  lemma FloatListIsFloats(open: string, close: string, s: string)
    ensures FloatList(open, close, s).Ok? ==> AllFloats(FloatList(open, close, s).out)
  {
    hide IsFloat, RecognizeFloat, MoreFloats;
    var tail := Tag(open, s);
    if tail.Ok? {
      RecognizedIsFloat(SkipMultispace(tail.rem));
      var float := WsFloat(tail.rem);
      if float.Ok? {
        MoreFloatsAreFloats(float.rem);
      }
    }
  }

  predicate AllPoints(ps: seq<seq<string>>) {
    forall i :: 0 <= i < |ps| ==> AllFloats(ps[i])
  }

  lemma WsPointIsFloats(s: string)
    ensures WsPoint(s).Ok? ==> AllFloats(WsPoint(s).out)
  {
    hide FloatList, AllFloats;
    FloatListIsFloats("[", "]", SkipMultispace(s));
  }

  lemma {:induction false} MorePointsAreFloats(s: string)
    ensures MorePoints(s).Ok? ==> AllPoints(MorePoints(s).out)
    decreases |s|
  {
    hide AllFloats, WsPoint;
    if s != "" && s[0] == ',' {
      WsPointIsFloats(s[1..]);
      var point := WsPoint(s[1..]);
      if point.Ok? {
        MorePointsAreFloats(point.rem);
      }
    }
  }

  lemma PointListIsFloats(s: string)
    ensures PointList(s).Ok? ==> AllPoints(PointList(s).out)
  {
    hide AllFloats, WsPoint, MorePoints;
    var tail := Tag("(", s);
    if tail.Ok? {
      WsPointIsFloats(tail.rem);
      var point := WsPoint(tail.rem);
      if point.Ok? {
        MorePointsAreFloats(point.rem);
      }
    }
  }

  lemma RadiusIsPrintable(env: Env, s: string)
    ensures var r := ParseGeoRadius(env, s); r.Ok? ==> Printable(false, r.out)
  {
    hide FloatList, IsFloat, WordExact;
    var name := WordExact(env, "_geoRadius", SkipMultispace(s));
    if name.Ok? {
      FloatListIsFloats("(", ")", name.rem);
    }
  }

  lemma BoxIsPrintable(env: Env, s: string)
    ensures var r := ParseGeoBoundingBox(env, s); r.Ok? ==> Printable(false, r.out)
  {
    hide PointList, IsFloat, WordExact;
    var name := WordExact(env, "_geoBoundingBox", SkipMultispace(s));
    if name.Ok? {
      PointListIsFloats(name.rem);
      var points := PointList(name.rem);
      if points.Ok? && |points.out| == 2 {
        assert AllFloats(points.out[0]) && AllFloats(points.out[1]);
      }
    }
  }

  // ---------- Every tree returned can be printed ----------

  lemma FieldIsPrintable(r: IResult<Filter>, s: string)
    requires FieldResult(r, s)
    ensures r.Ok? ==> PrintableTree(r.out)
  {
  }

  lemma LeafIsPrintable(env: Env, s: string)
    ensures var r := ParseLeaf(env, s); r.Ok? ==> PrintableTree(r.out)
  {
    hide ParseGeoRadius, ParseGeoBoundingBox, ParseIn, ParseNotIn, ParseCondition, ParsePhraseLeaf, ParseTo,
      ParseTextLeaf, ParseLeafError, Printable, FieldResult;
    RadiusIsPrintable(env, s);
    BoxIsPrintable(env, s);
    FieldIsPrintable(ParseIn(env, s), s);
    FieldIsPrintable(ParseNotIn(env, s), s);
    FieldIsPrintable(ParseCondition(env, s), s);
    FieldIsPrintable(ParsePhraseLeaf(env, s), s);
    FieldIsPrintable(ParseTo(env, s), s);
    FieldIsPrintable(ParseTextLeaf(env, s), s);
    FieldIsPrintable(ParseLeafError(env, s), s);
  }

  lemma ConsPrintable(f: Filter, fs: seq<Filter>)
    ensures PrintableTrees([f] + fs) == (PrintableTree(f) && PrintableTrees(fs))
  {
    assert ([f] + fs)[1..] == fs;
  }

  lemma {:induction false} OrIsPrintable(env: Env, s: string, depth: nat)
    ensures var r := ParseOr(env, true, s, depth); r.Ok? ==> PrintableTree(r.out)
    decreases Fuel(depth), |s| + 1
  {
    hide ParseAnd, MoreOrs, Printable;
    if depth <= MAX_FILTER_DEPTH {
      AndIsPrintable(env, s, depth + 1);
      var first := ParseAnd(env, true, s, depth + 1);
      if first.Ok? {
        MoreOrsArePrintable(env, first.rem, depth);
        var more := MoreOrs(env, true, first.rem, depth);
        if more.Ok? {
          ConsPrintable(first.out, more.out);
        }
      }
    }
  }

  lemma {:induction false} MoreOrsArePrintable(env: Env, s: string, depth: nat)
    requires depth <= MAX_FILTER_DEPTH
    ensures var r := MoreOrs(env, true, s, depth); r.Ok? ==> PrintableTrees(r.out)
    decreases Fuel(depth), |s|
  {
    hide ParseAnd, WsWord, Printable;
    var word := WsWord(env, "OR", s);
    if word.Ok? {
      AndIsPrintable(env, word.rem, depth + 1);
      var f := ParseAnd(env, true, word.rem, depth + 1);
      if f.Ok? {
        MoreOrsArePrintable(env, f.rem, depth);
        var more := MoreOrs(env, true, f.rem, depth);
        if more.Ok? {
          ConsPrintable(f.out, more.out);
        }
      }
    }
  }

  lemma {:induction false} AndIsPrintable(env: Env, s: string, depth: nat)
    ensures var r := ParseAnd(env, true, s, depth); r.Ok? ==> PrintableTree(r.out)
    decreases Fuel(depth), |s| + 1
  {
    hide ParseNot, MoreAnds, Printable;
    if depth <= MAX_FILTER_DEPTH {
      NotIsPrintable(env, s, depth + 1);
      var first := ParseNot(env, true, s, depth + 1);
      if first.Ok? {
        MoreAndsArePrintable(env, first.rem, depth);
        var more := MoreAnds(env, true, first.rem, depth);
        if more.Ok? {
          ConsPrintable(first.out, more.out);
        }
      }
    }
  }

  lemma {:induction false} MoreAndsArePrintable(env: Env, s: string, depth: nat)
    requires depth <= MAX_FILTER_DEPTH
    ensures var r := MoreAnds(env, true, s, depth); r.Ok? ==> PrintableTrees(r.out)
    decreases Fuel(depth), |s|
  {
    hide ParseNot, WsWord, Printable;
    var word := WsWord(env, "AND", s);
    if word.Ok? {
      NotIsPrintable(env, word.rem, depth + 1);
      var f := ParseNot(env, true, word.rem, depth + 1);
      if f.Ok? {
        MoreAndsArePrintable(env, f.rem, depth);
        var more := MoreAnds(env, true, f.rem, depth);
        if more.Ok? {
          ConsPrintable(f.out, more.out);
        }
      }
    }
  }

  lemma {:induction false} NotIsPrintable(env: Env, s: string, depth: nat)
    ensures var r := ParseNot(env, true, s, depth); r.Ok? ==> PrintableTree(r.out)
    decreases Fuel(depth), |s| + 1
  {
    hide ParsePrimary, WsWord, Printable;
    if depth <= MAX_FILTER_DEPTH {
      var word := WsWord(env, "NOT", s);
      if word.Ok? {
        NotIsPrintable(env, word.rem, depth + 1);
      } else {
        PrimaryIsPrintable(env, s, depth + 1);
      }
    }
  }

  lemma {:induction false} PrimaryIsPrintable(env: Env, s: string, depth: nat)
    ensures var r := ParsePrimary(env, true, s, depth); r.Ok? ==> PrintableTree(r.out)
    decreases Fuel(depth), |s| + 1
  {
    hide ParseOr, ParseLeaf, WsTag, Printable;
    if depth <= MAX_FILTER_DEPTH {
      var open := WsTag("(", s);
      if open.Ok? {
        OrIsPrintable(env, open.rem, depth + 1);
      } else {
        LeafIsPrintable(env, s);
      }
    }
  }

  /**
   Whatever text a filter was read from: printing the tree and reading it again gives the same
   tree, as long as the parentheses of the printed form fit the depth budget.
   */
  lemma ReparseGivesTheSame(env: Env, style: Style, s: string)
    requires env.Valid() && style.Valid()
    ensures var r := ParseFilter(env, true, s);
            r.Ok? ==>
              && NormalForm(r.out) && PrintableTree(r.out)
              && if Budget(r.out) <= MAX_FILTER_DEPTH then ParseFilter(env, true, Print(style, r.out)) == Ok("", r.out)
                 else ParseFilter(env, true, Print(style, r.out)).DepthError()
  {
    ParsedFilterMeansTheSame(env, f => true, s);
    OrIsPrintable(env, s, 0);
    hide ParseOr, PrintableTree, NormalForm, Budget;
    var r := ParseFilter(env, true, s);
    if r.Ok? {
      PrintParseRoundTrip(env, style, r.out);
    }
  }
}

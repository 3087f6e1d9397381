/**
 Geo filters (crates/filter-parser/src/lib.rs): the names, the lists of floats and what is read back.
 */
module FilterGeo {
  import opened Basics
  import opened FilterSyntax
  import opened FilterLexer
  import opened FilterGrammar

  // ---------- Floats ----------

  /** A text that is recognised as a float as a whole. */
  predicate IsFloat(t: string) {
    RecognizeFloat(t) == Ok("", t)
  }

  /** What may follow a float in a list. */
  predicate IsSeparator(c: char) {
    c == ',' || c == ')' || c == ']' || IsMultispace(c)
  }

  predicate EndsFloat(rest: string) {
    rest == "" || IsSeparator(rest[0])
  }

  lemma SeparatorsEndFloats(c: char)
    requires IsSeparator(c)
    ensures !IsDigit(c) && c != '.' && c != 'e' && c != 'E'
  {
  }

  lemma {:induction false} DigitsBefore(t: string, rest: string)
    requires EndsFloat(rest)
    ensures DigitsLength(t + rest) == DigitsLength(t)
  {
    if t == "" {
      assert t + rest == rest;
      if rest != "" {
        SeparatorsEndFloats(rest[0]);
      }
    } else {
      assert (t + rest)[1..] == t[1..] + rest;
      DigitsBefore(t[1..], rest);
    }
  }

  lemma MantissaBefore(t: string, rest: string)
    requires EndsFloat(rest)
    ensures MantissaLength(t + rest) == MantissaLength(t)
  {
    var n := DigitsLength(t);
    DigitsBefore(t, rest);
    if rest != "" {
      SeparatorsEndFloats(rest[0]);
    }
    hide DigitsLength;
    if n < |t| && t[n] == '.' {
      assert (t + rest)[n + 1..] == t[n + 1..] + rest;
      DigitsBefore(t[n + 1..], rest);
    }
  }

  lemma ExponentBefore(t: string, rest: string)
    requires EndsFloat(rest) && ExponentLength(t).Some?
    ensures ExponentLength(t + rest) == ExponentLength(t)
  {
    if t == "" {
      assert t + rest == rest;
      if rest != "" {
        SeparatorsEndFloats(rest[0]);
      }
    } else if t[0] == 'e' || t[0] == 'E' {
      assert t[1..] != "";
      assert (t + rest)[1..] == t[1..] + rest;
      var sign := SignLength(t[1..]);
      assert (t + rest)[1 + sign..] == t[1 + sign..] + rest;
      DigitsBefore(t[1 + sign..], rest);
      hide DigitsLength;
    }
  }

  /** A float is read up to its end. */
  lemma FloatParses(t: string, rest: string)
    requires IsFloat(t) && EndsFloat(rest)
    ensures RecognizeFloat(t + rest) == Ok(rest, t)
    ensures t != "" && !IsMultispace(t[0])
  {
    hide MantissaLength, ExponentLength;
    var sign := SignLength(t);
    var m := MantissaLength(t[sign..]);
    assert t != "";
    assert SignLength(t + rest) == sign;
    assert (t + rest)[sign..] == t[sign..] + rest;
    MantissaBefore(t[sign..], rest);
    assert (t + rest)[sign + m..] == t[sign + m..] + rest;
    ExponentBefore(t[sign + m..], rest);
    var n := sign + m + ExponentLength(t[sign + m..]).value;
    assert n == |t| by { assert t[..n] == t; }
    assert (t + rest)[n..] == rest && (t + rest)[..n] == t;
    FloatStarts(t);
  }

  lemma FloatStarts(t: string)
    requires IsFloat(t)
    ensures t != "" && !IsMultispace(t[0])
  {
  }

  // ---------- Lists ----------

  /** The text of the elements after the first one, with the same spaces around every comma. */
  function MoreText(pad: string, ts: seq<string>): string {
    if ts == [] then "" else "," + pad + ts[0] + pad + MoreText(pad, ts[1..])
  }

  /** A list in brackets. */
  function FloatsText(pad: string, open: char, close: char, ts: seq<string>): string {
    if ts == [] then [open, close] else [open] + pad + ts[0] + pad + MoreText(pad, ts[1..]) + [close]
  }

  predicate AllFloats(ts: seq<string>) {
    forall i :: 0 <= i < |ts| ==> IsFloat(ts[i])
  }

  lemma PadEndsFloat(pad: string, rest: string)
    requires IsSpaces(pad) && rest != "" && rest[0] in {',', ')', ']'}
    ensures EndsFloat(pad + rest)
  {
    if pad != "" {
      assert (pad + rest)[0] == pad[0];
    } else {
      assert pad + rest == rest;
    }
  }

  lemma WsFloatParses(pad: string, t: string, rest: string)
    requires IsSpaces(pad) && IsFloat(t) && rest != "" && rest[0] in {',', ')', ']'}
    ensures WsFloat(pad + (t + (pad + rest))) == Ok(rest, t)
  {
    PadEndsFloat(pad, rest);
    FloatParses(t, pad + rest);
    assert (t + (pad + rest))[0] == t[0];
    hide IsFloat, RecognizeFloat;
    SkipTo(pad, t + (pad + rest));
    SkipTo(pad, rest);
  }

  lemma MoreTextUnfolds(pad: string, ts: seq<string>, rest: string)
    requires ts != []
    ensures MoreText(pad, ts) + rest == "," + (pad + (ts[0] + (pad + (MoreText(pad, ts[1..]) + rest))))
  {
    var more := MoreText(pad, ts[1..]);
    assert MoreText(pad, ts) == "," + pad + ts[0] + pad + more;
    hide MoreText;
    Glue6(",", pad, ts[0], pad, more, rest);
  }

  lemma Glue6(a: string, b: string, c: string, d: string, e: string, f: string)
    ensures a + b + c + d + e + f == a + (b + (c + (d + (e + f))))
  {
  }

  lemma Glue7(a: string, b: string, c: string, d: string, e: string, f: string, g: string)
    ensures a + b + c + d + e + f + g == a + (b + (c + (d + (e + (f + g)))))
  {
  }

  lemma TagTaken(tag: string, s: string)
    ensures Tag(tag, tag + s) == Ok(s, ())
  {
  }

  lemma {:induction false} MoreFloatsParse(pad: string, ts: seq<string>, rest: string)
    requires IsSpaces(pad) && AllFloats(ts) && rest != "" && rest[0] in {')', ']'}
    ensures MoreFloats(MoreText(pad, ts) + rest) == Ok(rest, ts)
    decreases |ts|
  {
    hide WsFloat, IsFloat, IsSpaces;
    if ts == [] {
      assert MoreText(pad, ts) + rest == rest;
    } else {
      var more := MoreText(pad, ts[1..]) + rest;
      var s := MoreText(pad, ts) + rest;
      MoreTextUnfolds(pad, ts, rest);
      MoreTextStarts(pad, ts[1..], rest);
      hide MoreText;
      assert s[1..] == pad + (ts[0] + (pad + more));
      WsFloatParses(pad, ts[0], more);
      MoreFloatsParse(pad, ts[1..], rest);
      assert [ts[0]] + ts[1..] == ts;
    }
  }

  /** A printed list is read back, whatever follows its closing bracket. */
  lemma FloatListParses(pad: string, open: char, close: char, ts: seq<string>, rest: string)
    requires IsSpaces(pad) && ts != [] && AllFloats(ts) && close in {')', ']'}
    ensures FloatList([open], [close], FloatsText(pad, open, close, ts) + rest) == Ok(rest, ts)
  {
    hide *;
    FloatsSplit(ts);
    var end := [close] + rest;
    var more := MoreText(pad, ts[1..]) + end;
    var first := pad + (ts[0] + (pad + more));
    FloatsTextUnfolds(pad, open, close, ts, rest);
    MoreTextStarts(pad, ts[1..], end);
    MoreFloatsParse(pad, ts[1..], end);
    TagTaken([open], first);
    WsFloatParses(pad, ts[0], more);
    TagTaken([close], rest);
    FloatListStep([open], [close], [open] + first, first, more, end, rest, ts[0], ts[1..]);
    assert [ts[0]] + ts[1..] == ts;
  }

  lemma FloatsSplit(ts: seq<string>)
    requires ts != [] && AllFloats(ts)
    ensures IsFloat(ts[0]) && AllFloats(ts[1..])
  {
  }

  lemma FloatListStep(open: string, close: string, s: string, s1: string, s2: string, s3: string, rest: string,
                      t: string, ts: seq<string>)
    requires Tag(open, s) == Ok(s1, ()) && WsFloat(s1) == Ok(s2, t) && MoreFloats(s2) == Ok(s3, ts)
    requires Tag(close, s3) == Ok(rest, ())
    ensures FloatList(open, close, s) == Ok(rest, [t] + ts)
  {
    hide Tag, WsFloat, MoreFloats;
  }

  lemma FloatsTextUnfolds(pad: string, open: char, close: char, ts: seq<string>, rest: string)
    requires ts != []
    ensures FloatsText(pad, open, close, ts) + rest ==
            [open] + (pad + (ts[0] + (pad + (MoreText(pad, ts[1..]) + ([close] + rest)))))
  {
    hide MoreText;
    Glue7([open], pad, ts[0], pad, MoreText(pad, ts[1..]), [close], rest);
  }

  lemma MoreTextStarts(pad: string, ts: seq<string>, end: string)
    requires end != ""
    ensures (MoreText(pad, ts) + end)[0] == if ts == [] then end[0] else ','
  {
  }

  function PointText(pad: string, p: seq<string>): string {
    FloatsText(pad, '[', ']', p)
  }

  lemma WsPointParses(pad: string, p: seq<string>, rest: string)
    requires IsSpaces(pad) && p != [] && AllFloats(p) && rest != "" && rest[0] in {',', ')'}
    ensures WsPoint(pad + (PointText(pad, p) + (pad + rest))) == Ok(rest, p)
  {
    FloatListParses(pad, '[', ']', p, pad + rest);
    var s := PointText(pad, p) + (pad + rest);
    assert s[0] == '[';
    hide FloatList, FloatsText, IsSpaces;
    SkipTo(pad, s);
    SkipTo(pad, rest);
    assert ['['] == "[" && [']'] == "]";
  }

  /** The text of the points after the first one. */
  function MorePointsText(pad: string, ps: seq<seq<string>>): string {
    if ps == [] then "" else "," + pad + PointText(pad, ps[0]) + pad + MorePointsText(pad, ps[1..])
  }

  predicate ArePoints(ps: seq<seq<string>>) {
    forall i :: 0 <= i < |ps| ==> ps[i] != [] && AllFloats(ps[i])
  }

  function PointsText(pad: string, ps: seq<seq<string>>): (t: string)
    requires ps != []
    ensures t != "" && t[0] == '('
  {
    "(" + pad + PointText(pad, ps[0]) + pad + MorePointsText(pad, ps[1..]) + ")"
  }

  lemma MorePointsStarts(pad: string, ps: seq<seq<string>>, end: string)
    requires end != ""
    ensures (MorePointsText(pad, ps) + end)[0] == if ps == [] then end[0] else ','
  {
  }

  lemma MorePointsUnfolds(pad: string, ps: seq<seq<string>>, rest: string)
    requires ps != []
    ensures MorePointsText(pad, ps) + rest ==
            "," + (pad + (PointText(pad, ps[0]) + (pad + (MorePointsText(pad, ps[1..]) + rest))))
  {
    var p, more := PointText(pad, ps[0]), MorePointsText(pad, ps[1..]);
    assert MorePointsText(pad, ps) == "," + pad + p + pad + more;
    hide MorePointsText, PointText;
    Glue6(",", pad, p, pad, more, rest);
  }

  lemma {:induction false} MorePointsParse(pad: string, ps: seq<seq<string>>, rest: string)
    requires IsSpaces(pad) && ArePoints(ps) && rest != "" && rest[0] == ')'
    ensures MorePoints(MorePointsText(pad, ps) + rest) == Ok(rest, ps)
    decreases |ps|
  {
    hide WsPoint, AllFloats, IsSpaces, PointText;
    if ps == [] {
      assert MorePointsText(pad, ps) + rest == rest;
    } else {
      var more := MorePointsText(pad, ps[1..]) + rest;
      var s := MorePointsText(pad, ps) + rest;
      MorePointsUnfolds(pad, ps, rest);
      MorePointsStarts(pad, ps[1..], rest);
      hide MorePointsText;
      assert s[1..] == pad + (PointText(pad, ps[0]) + (pad + more));
      WsPointParses(pad, ps[0], more);
      MorePointsParse(pad, ps[1..], rest);
      assert [ps[0]] + ps[1..] == ps;
    }
  }

  lemma PointsTextUnfolds(pad: string, ps: seq<seq<string>>, rest: string)
    requires ps != []
    ensures PointsText(pad, ps) + rest ==
            "(" + (pad + (PointText(pad, ps[0]) + (pad + (MorePointsText(pad, ps[1..]) + (")" + rest)))))
  {
    var p, more := PointText(pad, ps[0]), MorePointsText(pad, ps[1..]);
    assert PointsText(pad, ps) == "(" + pad + p + pad + more + ")";
    hide *;
    Glue7("(", pad, p, pad, more, ")", rest);
  }

  lemma PointListParses(pad: string, ps: seq<seq<string>>, rest: string)
    requires IsSpaces(pad) && ps != [] && ArePoints(ps)
    ensures PointList(PointsText(pad, ps) + rest) == Ok(rest, ps)
  {
    hide *;
    PointsSplit(ps);
    var end := ")" + rest;
    var more := MorePointsText(pad, ps[1..]) + end;
    var first := pad + (PointText(pad, ps[0]) + (pad + more));
    PointsTextUnfolds(pad, ps, rest);
    MorePointsStarts(pad, ps[1..], end);
    MorePointsParse(pad, ps[1..], end);
    TagTaken("(", first);
    WsPointParses(pad, ps[0], more);
    TagTaken(")", rest);
    PointListStep("(" + first, first, more, end, rest, ps[0], ps[1..]);
    assert [ps[0]] + ps[1..] == ps;
  }

  lemma PointsSplit(ps: seq<seq<string>>)
    requires ps != [] && ArePoints(ps)
    ensures ps[0] != [] && AllFloats(ps[0]) && ArePoints(ps[1..])
  {
    hide AllFloats;
  }

  lemma PointListStep(s: string, s1: string, s2: string, s3: string, rest: string, p: seq<string>, ps: seq<seq<string>>)
    requires Tag("(", s) == Ok(s1, ()) && WsPoint(s1) == Ok(s2, p) && MorePoints(s2) == Ok(s3, ps)
    requires Tag(")", s3) == Ok(rest, ())
    ensures PointList(s) == Ok(rest, [p] + ps)
  {
    hide Tag, WsPoint, MorePoints;
  }

  // ---------- Names ----------

  /** A name made of value components, followed by an opening parenthesis. */
  lemma {:induction false} NameEnds(env: Env, name: string, t: string)
    requires env.Valid()
    requires forall i :: 0 <= i < |name| ==> IsAsciiAlphanumeric(name[i]) || name[i] == '_'
    requires t != "" && t[0] == '('
    ensures WordLength(env, name + t) == |name|
    ensures (name + t)[..|name|] == name && (name + t)[|name|..] == t
  {
    if name == "" {
      assert t[0] !in env.alnum;
      assert name + t == t;
    } else {
      assert (name + t)[1..] == name[1..] + t;
      NameEnds(env, name[1..], t);
    }
  }

  predicate IsName(name: string) {
    name != "" && name[0] == '_' && forall i :: 0 <= i < |name| ==> IsAsciiAlphanumeric(name[i]) || name[i] == '_'
  }

  lemma GeoNames()
    ensures IsName("_geoRadius") && IsName("_geoBoundingBox") && "_geoRadius" != "_geoBoundingBox"
  {
    assert |"_geoRadius"| != |"_geoBoundingBox"|;
  }

  lemma NameTaken(env: Env, name: string, t: string)
    requires env.Valid() && IsName(name)
    requires t != "" && t[0] == '('
    ensures SkipMultispace(name + t) == name + t && SkipWhitespace(name + t) == name + t
    ensures forall tag :: WordExact(env, tag, name + t) == if tag == name then Ok(t, ()) else Error(OtherKind)
  {
    NameEnds(env, name, t);
    hide WordLength;
    assert (name + t)[0] == '_';
  }

  // ---------- The two filters ----------

  predicate IsGeo(f: Filter) {
    f.GeoLowerThan? || f.GeoBoundingBox?
  }

  /** The arguments are floats. */
  predicate GeoArguments(f: Filter)
    requires IsGeo(f)
  {
    match f
    case GeoLowerThan(lat, lng, radius) => IsFloat(lat) && IsFloat(lng) && IsFloat(radius)
    case GeoBoundingBox(top, right, bottom, left) => IsFloat(top) && IsFloat(right) && IsFloat(bottom) && IsFloat(left)
  }

  function GeoText(pad: string, f: Filter): string
    requires IsGeo(f)
  {
    match f
    case GeoLowerThan(lat, lng, radius) => "_geoRadius" + FloatsText(pad, '(', ')', [lat, lng, radius])
    case GeoBoundingBox(top, right, bottom, left) =>
      "_geoBoundingBox" + PointsText(pad, [[top, right], [bottom, left]])
  }

  lemma RadiusNameTaken(env: Env, t: string)
    requires env.Valid() && t != "" && t[0] == '('
    ensures WordExact(env, "_geoRadius", SkipMultispace("_geoRadius" + t)) == Ok(t, ())
  {
    hide *;
    GeoNames();
    NameTaken(env, "_geoRadius", t);
  }

  lemma RadiusParses(env: Env, s: string, t: string, ts: seq<string>, rest: string)
    requires WordExact(env, "_geoRadius", SkipMultispace(s)) == Ok(t, ()) && FloatList("(", ")", t) == Ok(rest, ts)
    ensures ParseGeoRadius(env, s) ==
            if |ts| == 3 then Ok(rest, GeoLowerThan(ts[0], ts[1], ts[2])) else Failure(OtherKind)
  {
    hide WordExact, FloatList, SkipMultispace;
  }

  /** `_geoRadius` and a list of floats: accepted exactly if there are three, else a final error. */
  lemma GeoRadiusIff(env: Env, pad: string, ts: seq<string>, rest: string)
    requires env.Valid() && IsSpaces(pad) && ts != [] && AllFloats(ts)
    ensures ParseGeoRadius(env, "_geoRadius" + (FloatsText(pad, '(', ')', ts) + rest)) ==
            if |ts| == 3 then Ok(rest, GeoLowerThan(ts[0], ts[1], ts[2])) else Failure(OtherKind)
  {
    var t := FloatsText(pad, '(', ')', ts) + rest;
    assert t[0] == '(';
    hide *;
    FloatListParses(pad, '(', ')', ts, rest);
    assert ['('] == "(" && [')'] == ")";
    RadiusNameTaken(env, t);
    RadiusParses(env, "_geoRadius" + t, t, ts, rest);
  }

  /** `_geoRadius` and its three arguments are read back. */
  lemma GeoRadiusParses(env: Env, pad: string, f: Filter, rest: string)
    requires env.Valid() && IsSpaces(pad) && f.GeoLowerThan? && GeoArguments(f)
    ensures ParseGeoRadius(env, GeoText(pad, f) + rest) == Ok(rest, f)
  {
    var args := [f.lat, f.lng, f.radius];
    var t := FloatsText(pad, '(', ')', args) + rest;
    assert GeoText(pad, f) + rest == "_geoRadius" + t;
    assert AllFloats(args);
    hide *;
    GeoRadiusIff(env, pad, args, rest);
  }

  lemma BoxParses(env: Env, s: string, t: string, ps: seq<seq<string>>, rest: string)
    requires WordExact(env, "_geoBoundingBox", SkipMultispace(s)) == Ok(t, ()) && PointList(t) == Ok(rest, ps)
    ensures ParseGeoBoundingBox(env, s) ==
            if |ps| == 2 && |ps[0]| == 2 && |ps[1]| == 2
            then Ok(rest, GeoBoundingBox(ps[0][0], ps[0][1], ps[1][0], ps[1][1])) else Failure(OtherKind)
  {
    hide WordExact, PointList, SkipMultispace;
  }

  /** `_geoBoundingBox` and a list of points: accepted exactly if there are two of two floats, else a final error. */
  lemma GeoBoundingBoxIff(env: Env, pad: string, ps: seq<seq<string>>, rest: string)
    requires env.Valid() && IsSpaces(pad) && ps != [] && ArePoints(ps)
    ensures var s := "_geoBoundingBox" + (PointsText(pad, ps) + rest);
            && ParseGeoRadius(env, s).Error?
            && ParseGeoBoundingBox(env, s) ==
               if |ps| == 2 && |ps[0]| == 2 && |ps[1]| == 2
               then Ok(rest, GeoBoundingBox(ps[0][0], ps[0][1], ps[1][0], ps[1][1])) else Failure(OtherKind)
  {
    var t := PointsText(pad, ps) + rest;
    assert t[0] == '(';
    hide *;
    PointListParses(pad, ps, rest);
    BoxNameTaken(env, t);
    BoxParses(env, "_geoBoundingBox" + t, t, ps, rest);
  }

  /** `_geoBoundingBox` and its two points are read back, and it is not taken for `_geoRadius`. */
  lemma GeoBoundingBoxParses(env: Env, pad: string, f: Filter, rest: string)
    requires env.Valid() && IsSpaces(pad) && f.GeoBoundingBox? && GeoArguments(f)
    ensures ParseGeoRadius(env, GeoText(pad, f) + rest).Error?
    ensures ParseGeoBoundingBox(env, GeoText(pad, f) + rest) == Ok(rest, f)
  {
    var ps := [[f.top, f.right], [f.bottom, f.left]];
    BoxLiteral(pad, f, rest);
    hide *;
    GeoBoundingBoxIff(env, pad, ps, rest);
  }

  lemma BoxLiteral(pad: string, f: Filter, rest: string)
    requires f.GeoBoundingBox? && GeoArguments(f)
    ensures var ps := [[f.top, f.right], [f.bottom, f.left]];
            && ArePoints(ps)
            && GeoText(pad, f) + rest == "_geoBoundingBox" + (PointsText(pad, ps) + rest)
            && f == GeoBoundingBox(ps[0][0], ps[0][1], ps[1][0], ps[1][1])
  {
    hide IsFloat, PointText;
    var p, q := [f.top, f.right], [f.bottom, f.left];
    assert AllFloats(p) && AllFloats(q);
  }

  lemma BoxNameTaken(env: Env, t: string)
    requires env.Valid() && t != "" && t[0] == '('
    ensures WordExact(env, "_geoBoundingBox", SkipMultispace("_geoBoundingBox" + t)) == Ok(t, ())
    ensures ParseGeoRadius(env, "_geoBoundingBox" + t).Error?
  {
    hide *;
    GeoNames();
    var name := "_geoBoundingBox";
    NameTaken(env, name, t);
    NoRadius(env, name + t);
  }

  lemma NoRadius(env: Env, s: string)
    requires WordExact(env, "_geoRadius", SkipMultispace(s)).Error?
    ensures ParseGeoRadius(env, s).Error?
  {
    hide WordExact, SkipMultispace, FloatList;
  }

  lemma GeoTextStarts(pad: string, f: Filter)
    requires IsGeo(f)
    ensures GeoText(pad, f) != "" && GeoText(pad, f)[0] == '_'
  {
    hide FloatsText, PointsText;
  }

  // ---------- The grammar of floats ----------

  lemma {:induction false} DigitsTaken(d: string, t: string)
    requires IsDigits(d) && (t == "" || !IsDigit(t[0]))
    ensures DigitsLength(d + t) == |d|
  {
    if d == "" {
      assert d + t == t;
    } else {
      assert (d + t)[1..] == d[1..] + t;
      DigitsTaken(d[1..], t);
    }
  }

  lemma MantissaTaken(whole: string, dot: bool, fraction: string, t: string)
    requires IsDigits(whole) && IsDigits(fraction)
    requires if dot then whole != "" || fraction != "" else whole != "" && fraction == ""
    requires t == "" || t[0] == 'e' || t[0] == 'E'
    ensures var m := whole + (if dot then "." else "") + fraction; MantissaLength(m + t) == |m|
  {
    hide DigitsLength;
    if dot {
      var s := whole + "." + fraction + t;
      assert s == whole + ("." + (fraction + t));
      DigitsTaken(whole, "." + (fraction + t));
      assert s[|whole| + 1..] == fraction + t;
      DigitsTaken(fraction, t);
    } else {
      assert whole + "" + fraction + t == whole + t;
      DigitsTaken(whole, t);
    }
  }

  lemma ExponentTaken(t: string)
    requires IsExponent(t)
    ensures ExponentLength(t) == Some(|t|)
  {
    hide DigitsLength;
    var digits := if |t| > 1 && (t[1] == '+' || t[1] == '-') then t[2..] else t[1..];
    assert digits + "" == digits;
    DigitsTaken(digits, "");
  }

  /** Everything that the grammar calls a float is one. */
  lemma FloatGrammar(f: FloatForm)
    requires ValidFloat(f)
    ensures IsFloat(ShowFloat(f))
  {
    var m := ShowMantissa(f);
    if f.exponent != "" {
      ExponentTaken(f.exponent);
    }
    MantissaTaken(f.whole, f.dot, f.fraction, f.exponent);
    assert m != "" && (IsDigit(m[0]) || m[0] == '.');
    FloatParts(f.sign, m, f.exponent);
  }

  lemma FloatParts(sign: string, m: string, exponent: string)
    requires IsSign(sign) && m != "" && m[0] != '+' && m[0] != '-'
    requires MantissaLength(m + exponent) == |m| && ExponentLength(exponent) == Some(|exponent|)
    ensures IsFloat(sign + (m + exponent))
  {
    hide MantissaLength, ExponentLength, DigitsLength;
    var t := sign + (m + exponent);
    assert t[0] == if sign == "" then m[0] else sign[0];
    assert SignLength(t) == |sign|;
    assert t[|sign|..] == m + exponent;
    assert t[|sign| + |m|..] == exponent;
    assert t[|t|..] == "" && t[..|t|] == t;
  }
}

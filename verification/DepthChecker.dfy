/**
 The fast check that decides whether a JSON value has to be flattened
 (crates/json-depth-checker/src/lib.rs).
 */
module DepthChecker {
  import opened Json

  /** `should_flatten_from_value`. */
  predicate ShouldFlattenValue(v: Value) {
    match v
    case Object(_) => true
    case Array(vs) => exists i :: 0 <= i < |vs| && !IsScalar(vs[i])
    case _ => false
  }

  /** What the scanner answers on the rest of an array, from its two flags. */
  predicate Scan(t: string, skipNext: bool, inString: bool) {
    if t == "" then false
    else if skipNext then Scan(t[1..], false, inString)
    else if t[0] == '\\' then Scan(t[1..], true, inString)
    else if inString then Scan(t[1..], false, t[0] != '"')
    else if t[0] == '"' then Scan(t[1..], false, true)
    else if t[0] == '[' || t[0] == '{' then true
    else Scan(t[1..], false, false)
  }

  predicate FastCheck(json: string) {
    if json == "" then false
    else if json[0] == '{' then true
    else if json[0] != '[' then false
    else Scan(json[1..], false, false)
  }

  /** `should_flatten_from_unchecked_slice`: one pass over the bytes. */
  method ShouldFlattenFromUncheckedSlice(json: string) returns (r: bool)
    ensures r == FastCheck(json)
  {
    if json == "" {
      return false;
    }
    if json[0] == '{' {
      return true;
    } else if json[0] != '[' {
      return false;
    }
    var skipNext, inString := false, false;
    var i := 1;
    while i < |json|
      invariant 1 <= i <= |json|
      invariant FastCheck(json) == Scan(json[i..], skipNext, inString)
    {
      var byte := json[i];
      assert json[i..][1..] == json[i + 1..];
      if skipNext {
        skipNext := false;
      } else if byte == '\\' {
        skipNext := true;
      } else if inString {
        if byte == '"' {
          inString := false;
        }
      } else if byte == '"' {
        inString := true;
      } else if byte == '[' || byte == '{' {
        return true;
      }
      i := i + 1;
    }
    return false;
  }

  // ---------- Scanning what the serializer prints ----------

  /** Characters that mean nothing to the scanner outside strings. */
  predicate IsPlain(c: char) {
    c != '\\' && c != '"' && c != '[' && c != '{'
  }

  lemma {:induction false} ScanPlain(p: string, rest: string)
    requires forall i :: 0 <= i < |p| ==> IsPlain(p[i])
    ensures Scan(p + rest, false, false) == Scan(rest, false, false)
  {
    if p == "" {
      assert p + rest == rest;
    } else {
      assert (p + rest)[1..] == p[1..] + rest;
      ScanPlain(p[1..], rest);
    }
  }

  lemma {:induction false} ScanInString(p: string, rest: string)
    requires forall i :: 0 <= i < |p| ==> p[i] != '\\' && p[i] != '"'
    ensures Scan(p + rest, false, true) == Scan(rest, false, true)
  {
    if p == "" {
      assert p + rest == rest;
    } else {
      assert (p + rest)[1..] == p[1..] + rest;
      ScanInString(p[1..], rest);
    }
  }

  /** An escaped byte leaves the scanner inside the string. */
  lemma ScanEscapedByte(c: char, rest: string)
    ensures Scan(EscapeByte(c) + rest, false, true) == Scan(rest, false, true)
  {
    var e := EscapeByte(c);
    if e[0] == '\\' {
      var tail := e[2..];
      assert (e + rest)[1..][1..] == tail + rest;
      ScanInString(tail, rest);
    } else {
      ScanInString(e, rest);
    }
  }

  lemma {:induction false} ScanEscapedBytes(s: string, rest: string)
    ensures Scan(EscapeBytes(s) + rest, false, true) == Scan(rest, false, true)
  {
    if s == "" {
      assert EscapeBytes(s) + rest == rest;
    } else {
      assert EscapeBytes(s) + rest == EscapeByte(s[0]) + (EscapeBytes(s[1..]) + rest);
      ScanEscapedByte(s[0], EscapeBytes(s[1..]) + rest);
      ScanEscapedBytes(s[1..], rest);
    }
  }

  /** A whole string literal means nothing to the scanner, whatever it contains. */
  lemma ScanStringText(s: string, rest: string)
    ensures Scan(StringText(s) + rest, false, false) == Scan(rest, false, false)
  {
    var t := StringText(s) + rest;
    var inside := EscapeBytes(s) + ("\"" + rest);
    assert t[1..] == inside;
    ScanEscapedBytes(s, "\"" + rest);
    assert ("\"" + rest)[1..] == rest;
    assert Scan(t, false, false) == Scan(inside, false, true);
  }

  lemma PlainScalar(v: Value)
    requires IsScalar(v) && !v.String?
    ensures forall i :: 0 <= i < |Serialize(v)| ==> IsPlain(Serialize(v)[i])
  {
    if v.Number? {
      forall i | 0 <= i < |v.text| ensures IsPlain(v.text[i]) {
        assert v.text[i] in "0123456789+-.eE";
      }
    }
  }

  lemma ScanScalar(v: Value, rest: string)
    requires IsScalar(v)
    ensures Scan(Serialize(v) + rest, false, false) == Scan(rest, false, false)
  {
    hide Scan, StringText;
    if v.String? {
      ScanStringText(v.s, rest);
    } else {
      PlainScalar(v);
      ScanPlain(Serialize(v), rest);
    }
  }

  lemma {:induction false} ScanElements(vs: seq<Value>)
    ensures Scan(SerializeElements(vs) + "]", false, false) == ShouldFlattenValue(Array(vs))
    decreases |vs|
  {
    if vs == [] {
    } else {
      var first := Serialize(vs[0]);
      var more := if |vs| == 1 then "]" else "," + SerializeElements(vs[1..]) + "]";
      assert SerializeElements(vs) + "]" == first + more;
      if IsScalar(vs[0]) {
        ScanScalar(vs[0], more);
        if |vs| > 1 {
          assert more == "," + (SerializeElements(vs[1..]) + "]");
          ScanPlain(",", SerializeElements(vs[1..]) + "]");
          ScanElements(vs[1..]);
          ShouldFlattenTail(vs);
        } else {
          ScanPlain("]", "");
        }
      } else {
        assert (first + more)[0] == first[0];
        assert !IsScalar(vs[0]);
      }
    }
  }

  lemma ShouldFlattenTail(vs: seq<Value>)
    requires vs != [] && IsScalar(vs[0])
    ensures ShouldFlattenValue(Array(vs)) == ShouldFlattenValue(Array(vs[1..]))
  {
  }

  /** The first byte tells objects and arrays from everything else. */
  lemma FirstByte(v: Value)
    ensures Serialize(v)[0] == '{' <==> v.Object?
    ensures Serialize(v)[0] == '[' <==> v.Array?
  {
    match v
    case Number(text) => assert text[0] in "0123456789+-.eE";
    case _ =>
  }

  lemma ArrayTail(vs: seq<Value>)
    ensures Serialize(Array(vs))[1..] == SerializeElements(vs) + "]"
  {
  }

  /**
   The fast check is exact: on the serialization of any JSON value it gives the answer of the
   check on the value, whatever the strings contain.
   */
  lemma FastCheckIsExact(v: Value)
    ensures FastCheck(Serialize(v)) == ShouldFlattenValue(v)
  {
    hide Scan, Serialize;
    FirstByte(v);
    if v.Array? {
      ArrayTail(v.elements);
      ScanElements(v.elements);
    }
  }
}

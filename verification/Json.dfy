/**
 JSON values and their compact serialization.

 Strings are byte strings; a byte is written as the character with its code.  Objects keep their
 entries in iteration order.
 */
module Json {

  type NumberText = s: string | s != "" && forall i :: 0 <= i < |s| ==> s[i] in "0123456789+-.eE" witness "0"

  datatype Value =
    | Null
    | Bool(b: bool)
    | Number(text: NumberText)
    | String(s: string)
    | Array(elements: seq<Value>)
    | Object(entries: seq<Field>)

  datatype Field = Field(key: string, value: Value)

  predicate IsScalar(v: Value) {
    !v.Array? && !v.Object?
  }

  // ---------- serde_json::to_vec ----------

  function Hex(n: nat): char
    requires n < 16
  {
    "0123456789abcdef"[n]
  }

  /** The escapes of section 7 of RFC 8259, as the serializer chooses them. */
  function EscapeByte(c: char): string {
    if c == '"' then "\\\""
    else if c == '\\' then "\\\\"
    else if c == '\U{8}' then "\\b"
    else if c == '\t' then "\\t"
    else if c == '\n' then "\\n"
    else if c == '\U{C}' then "\\f"
    else if c == '\r' then "\\r"
    else if c < ' ' then "\\u00" + [Hex(c as int / 16), Hex(c as int % 16)]
    else [c]
  }

  function EscapeBytes(s: string): string {
    if s == "" then "" else EscapeByte(s[0]) + EscapeBytes(s[1..])
  }

  function HexValue(c: char): int {
    if '0' <= c <= '9' then c as int - '0' as int else if 'a' <= c <= 'f' then c as int - 'a' as int + 10 else 0
  }

  /** What a character sequence of a serialized string stands for (section 7 of RFC 8259). */
  function UnescapeBytes(t: string): string {
    if t == "" then ""
    else if t[0] != '\\' || |t| == 1 then [t[0]] + UnescapeBytes(t[1..])
    else if t[1] == 'u' && |t| >= 6 then
      [((HexValue(t[4]) * 16 + HexValue(t[5])) % 256) as char] + UnescapeBytes(t[6..])
    else [PairMeaning(t[1])] + UnescapeBytes(t[2..])
  }

  function PairMeaning(d: char): char {
    if d == 'b' then '\U{8}' else if d == 't' then '\t' else if d == 'n' then '\n'
    else if d == 'f' then '\U{C}' else if d == 'r' then '\r' else d
  }

  lemma UnescapePlain(c: char, t: string)
    requires c != '\\'
    ensures UnescapeBytes([c] + t) == [c] + UnescapeBytes(t)
  {
    assert ([c] + t)[1..] == t;
  }

  lemma UnescapePair(d: char, t: string)
    requires d != 'u'
    ensures UnescapeBytes(['\\', d] + t) == [PairMeaning(d)] + UnescapeBytes(t)
  {
    assert (['\\', d] + t)[2..] == t;
  }

  lemma UnescapeUnicode(n: nat, t: string)
    requires n < 256
    ensures UnescapeBytes("\\u00" + [Hex(n / 16), Hex(n % 16)] + t) == [n as char] + UnescapeBytes(t)
  {
    var s := "\\u00" + [Hex(n / 16), Hex(n % 16)] + t;
    HexDigits(n / 16);
    HexDigits(n % 16);
    hide HexValue, Hex;
    assert s[6..] == t && s[0] == '\\' && s[1] == 'u' && s[4] == Hex(n / 16) && s[5] == Hex(n % 16);
  }

  lemma UnescapeOne(c: char, t: string)
    ensures UnescapeBytes(EscapeByte(c) + t) == [c] + UnescapeBytes(t)
    ensures forall i :: 0 <= i < |EscapeByte(c)| ==> EscapeByte(c)[i] >= ' '
  {
    hide UnescapeBytes;
    if |EscapeByte(c)| == 1 {
      UnescapePlain(c, t);
    } else if |EscapeByte(c)| == 2 {
      UnescapePair(EscapeByte(c)[1], t);
    } else {
      UnescapeUnicode(c as int, t);
      HexDigits(c as int / 16);
      HexDigits(c as int % 16);
    }
  }

  lemma HexDigits(n: nat)
    requires n < 16
    ensures HexValue(Hex(n)) == n && Hex(n) >= ' '
  {
  }

  /** A serialized string can be read back, and contains no control character. */
  lemma {:induction false} EscapedIsFaithful(s: string)
    ensures UnescapeBytes(EscapeBytes(s)) == s
    ensures forall i :: 0 <= i < |EscapeBytes(s)| ==> EscapeBytes(s)[i] >= ' '
  {
    if s != "" {
      EscapedIsFaithful(s[1..]);
      UnescapeOne(s[0], EscapeBytes(s[1..]));
      hide UnescapeBytes, EscapeByte;
      assert [s[0]] + s[1..] == s;
    }
  }

  function StringText(s: string): string {
    "\"" + EscapeBytes(s) + "\""
  }

  function Serialize(v: Value): (t: string)
    ensures t != ""
    decreases v, 0
  {
    match v
    case Null => "null"
    case Bool(b) => if b then "true" else "false"
    case Number(text) => text
    case String(s) => StringText(s)
    case Array(vs) => "[" + SerializeElements(vs) + "]"
    case Object(fs) => "{" + SerializeFields(fs) + "}"
  }

  function SerializeElements(vs: seq<Value>): string
    decreases vs, 1
  {
    if vs == [] then ""
    else if |vs| == 1 then Serialize(vs[0])
    else Serialize(vs[0]) + "," + SerializeElements(vs[1..])
  }

  function SerializeField(f: Field): string
    decreases f, 1
  {
    StringText(f.key) + ":" + Serialize(f.value)
  }

  function SerializeFields(fs: seq<Field>): string
    decreases fs, 1
  {
    if fs == [] then ""
    else if |fs| == 1 then SerializeField(fs[0])
    else SerializeField(fs[0]) + "," + SerializeFields(fs[1..])
  }
}

/** An abstract JSON value, the dictionary view the Python code takes of a
    parsed object, Python truthiness, and the compact text that
    `json.dumps(value, separators=(",", ":"))` produces for it.

    Parsing (`json.loads`) is NOT defined here: the modules that parse take it
    as a parameter `parse: string -> Option<Json>`, `None` standing for a
    `JSONDecodeError`. */
module JsonValue {
  import opened Wrappers
  import opened Text

  /** Objects keep their members in order (Python dicts preserve insertion
      order, and `json.dumps` writes them in that order). Floats are not modelled. */
  datatype Json =
    | JNull
    | JBool(b: bool)
    | JInt(i: int)
    | JStr(s: string)
    | JArr(items: seq<Json>)
    | JObj(fields: seq<(string, Json)>)

  /** Python's `bool(v)` for a decoded JSON value. */
  predicate Truthy(j: Json) {
    match j
    case JNull => false
    case JBool(b) => b
    case JInt(i) => i != 0
    case JStr(s) => s != ""
    case JArr(items) => |items| > 0
    case JObj(fields) => |fields| > 0
  }

  /** The dict `json.loads` builds from an object's members: when a key repeats, the last one wins. */
  function ToMap(fields: seq<(string, Json)>): (m: map<string, Json>)
  {
    if |fields| == 0 then map[]
    else ToMap(fields[..|fields| - 1])[fields[|fields| - 1].0 := fields[|fields| - 1].1]
  }

  /** The dict has exactly the members' keys, each with the value of its last occurrence, and is
      empty exactly when the object is. */
  lemma {:induction false} ToMapSpec(fields: seq<(string, Json)>)
    ensures var m := ToMap(fields);
      && (forall i :: 0 <= i < |fields| ==> fields[i].0 in m)
      && (forall k :: k in m ==> exists i :: 0 <= i < |fields| && fields[i] == (k, m[k]))
      && (|fields| > 0 ==> m[fields[|fields| - 1].0] == fields[|fields| - 1].1)
      && (|m| == 0 <==> |fields| == 0)
  {
    if |fields| > 0 {
      var init := fields[..|fields| - 1];
      var last := fields[|fields| - 1];
      ToMapSpec(init);
      var m := ToMap(fields);
      assert forall k :: k in m && k != last.0 ==> exists i :: 0 <= i < |init| && init[i] == (k, m[k]);
      assert forall i :: 0 <= i < |init| ==> init[i] == fields[i];
      assert last.0 in m;
    }
  }

  /** The key of the member at position `i` is in the dict, and when no later member repeats it,
      the dict maps it to that member's value. */
  lemma {:induction false} ToMapLookup(fields: seq<(string, Json)>, i: nat)
    requires i < |fields|
    requires forall j :: i < j < |fields| ==> fields[j].0 != fields[i].0
    ensures fields[i].0 in ToMap(fields) && ToMap(fields)[fields[i].0] == fields[i].1
    decreases |fields|
  {
    if i < |fields| - 1 {
      var init := fields[..|fields| - 1];
      ToMapLookup(init, i);
    }
  }

  /** Python's numeric view of a decoded value (`bool` is a subclass of `int`); comparing or
      dividing any other value raises `TypeError`, which is `None` here. */
  function PyNumber(j: Json): (r: Option<int>)
    ensures r.Some? <==> j.JInt? || j.JBool?
    ensures j.JInt? ==> r == Some(j.i)
  {
    match j
    case JInt(i) => Some(i)
    case JBool(b) => Some(if b then 1 else 0)
    case _ => None
  }

  /** Python's `float(v)` on a decoded value: a number, or a string holding a decimal numeral
      (see `DecimalNumeral`). Any other string raises `ValueError` and any other value
      `TypeError`; both are `None` here. */
  function PyFloat(j: Json): (r: Option<real>)
    ensures PyNumber(j).Some? ==> r == Some(PyNumber(j).value as real)
    ensures j.JNull? || j.JArr? || j.JObj? ==> r.None?
  {
    match j
    case JInt(i) => Some(i as real)
    case JBool(b) => Some(if b then 1.0 else 0.0)
    case JStr(s) => DecimalNumeral(s)
    case _ => None
  }

  predicate AllDigits(s: string) {
    forall i :: 0 <= i < |s| ==> '0' <= s[i] <= '9'
  }

  function Pow10(n: nat): (r: nat)
    ensures r >= 1
  {
    if n == 0 then 1 else 10 * Pow10(n - 1)
  }

  /** The value `float()` reads from a string of the form: optional surrounding whitespace, an
      optional sign, digits, and an optional `.` followed by digits, with at least one digit in
      all; `None` for any other string. */
  function DecimalNumeral(s: string): (r: Option<real>)
  {
    var t := Strip(s);
    if |t| > 0 && t[0] == '-' then Negated(UnsignedNumeral(t[1..]))
    else if |t| > 0 && t[0] == '+' then UnsignedNumeral(t[1..])
    else UnsignedNumeral(t)
  }

  function Negated(r: Option<real>): Option<real> {
    if r.Some? then Some(-r.value) else None
  }

  /** A string without surrounding whitespace is read by its sign and the rest. */
  lemma StrippedNumeral(t: string)
    requires Strip(t) == t && |t| > 0
    ensures t[0] == '-' ==> DecimalNumeral(t) == Negated(UnsignedNumeral(t[1..]))
    ensures t[0] != '-' && t[0] != '+' ==> DecimalNumeral(t) == UnsignedNumeral(t)
  {
  }

  /** Digits with an optional fractional part, at least one digit in all. */
  function UnsignedNumeral(body: string): (r: Option<real>)
    ensures r.Some? ==> r.value >= 0.0
  {
    var parts := Split(body, '.');
    var whole := parts[0];
    var frac := if |parts| == 2 then parts[1] else "";
    if |parts| > 2 || !AllDigits(whole) || !AllDigits(frac) || |whole| + |frac| == 0 then None
    else if |frac| == 0 then Some(DecimalValue(whole) as real)
    else Some(DecimalValue(whole) as real + FractionValue(frac))
  }

  /** The value of the digits after the point. */
  function FractionValue(frac: string): (r: real)
    requires AllDigits(frac)
    ensures r >= 0.0
  {
    DecimalValue(frac) as real / Pow10(|frac|) as real
  }

  /** `float(str(n)) == n`: a rendered natural number reads back as itself. */
  lemma FloatOfRenderedNat(n: nat)
    ensures PyFloat(JStr(NatToString(n))) == Some(n as real)
  {
    DecimalRoundTrip(n);
    PlainDigits(NatToString(n));
  }

  /** A run of digits reads as its decimal value. */
  lemma PlainDigits(digits: string)
    requires |digits| > 0 && AllDigits(digits)
    ensures DecimalNumeral(digits) == Some(DecimalValue(digits) as real)
  {
    StripIdentity(digits);
    StrippedNumeral(digits);
    WholeNumeral(digits);
  }

  /** A run of digits without a fractional part reads as its decimal value. */
  lemma WholeNumeral(digits: string)
    requires |digits| > 0 && AllDigits(digits)
    ensures UnsignedNumeral(digits) == Some(DecimalValue(digits) as real)
  {
    assert '.' !in digits;
    SplitNoSep(digits, '.');
  }

  /** Digits, a point and digits read as the whole part plus the fraction. */
  lemma FractionNumeral(whole: string, frac: string)
    requires AllDigits(whole) && AllDigits(frac) && |frac| > 0
    ensures UnsignedNumeral(whole + ['.'] + frac) == Some(DecimalValue(whole) as real + FractionValue(frac))
  {
    assert '.' !in whole && '.' !in frac;
    SplitAtFirst(whole, frac, '.');
    SplitNoSep(frac, '.');
    var parts := Split(whole + ['.'] + frac, '.');
    assert parts == [whole, frac];
    assert parts[0] == whole && parts[1] == frac;
  }

  /** `float()` of an unsigned numeral with a fractional part: `float("18.5") == 18 + 5/10`. */
  lemma PointNumeral(whole: string, frac: string)
    requires |whole| > 0 && AllDigits(whole) && |frac| > 0 && AllDigits(frac)
    ensures PyFloat(JStr(whole + ['.'] + frac)) == Some(DecimalValue(whole) as real + FractionValue(frac))
  {
    var s := whole + ['.'] + frac;
    assert s[0] == whole[0] && s[|s| - 1] == frac[|frac| - 1];
    StripIdentity(s);
    StrippedNumeral(s);
    FractionNumeral(whole, frac);
  }

  /** A word is rejected. */
  lemma WordExample()
    ensures PyFloat(JStr("red")) == None
  {
    StripIdentity("red");
    SplitNoSep("red", '.');
  }

  /** The dictionary behind a value, when it is a JSON object (Python's `isinstance(v, dict)`). */
  function AsDict(j: Json): (r: Option<map<string, Json>>)
    ensures r.Some? <==> j.JObj?
    ensures r.Some? ==> (|r.value| == 0 <==> !Truthy(j))
  {
    match j
    case JObj(fields) => ToMapSpec(fields); Some(ToMap(fields))
    case _ => None
  }

  /** Python's `d.get(key)` on a value that is a dict: `None` when the value is not an object
      or lacks the key. */
  function Get(j: Json, key: string): (r: Option<Json>)
    ensures r.Some? <==> j.JObj? && key in ToMap(j.fields)
    ensures r.Some? ==> r.value == ToMap(j.fields)[key]
  {
    if j.JObj? && key in ToMap(j.fields) then Some(ToMap(j.fields)[key]) else None
  }

  // ---------------------------------------------------------------------------
  // json.dumps with ensure_ascii (the default)

  function HexDigit(d: nat): (c: char)
    requires d < 16
    ensures ' ' <= c <= '~'
  {
    ['0', '1', '2', '3', '4', '5', '6', '7', '8', '9', 'a', 'b', 'c', 'd', 'e', 'f'][d]
  }

  /** Four lower-case hex digits, as in Python's `'\\u{0:04x}'`. */
  function Hex4(n: nat): (r: string)
    requires n < 0x10000
    ensures |r| == 4 && Printable(r)
  {
    [HexDigit(n / 0x1000), HexDigit(n / 0x100 % 16), HexDigit(n / 0x10 % 16), HexDigit(n % 16)]
  }

  /** How `json.dumps` writes one character of a string: the short escapes for
      quote, backslash and the five named control characters, the character
      itself when it is printable ASCII, and `\uXXXX` (a surrogate pair above
      U+FFFF) otherwise. */
  function EscapeChar(c: char): (r: string)
    ensures |r| > 0 && Printable(r)
  {
    if c == '"' then "\\\""
    else if c == '\\' then "\\\\"
    else if c == '\n' then "\\n"
    else if c == '\r' then "\\r"
    else if c == '\t' then "\\t"
    else if c == '\U{08}' then "\\b"
    else if c == '\U{0C}' then "\\f"
    else if ' ' <= c <= '~' then [c]
    else if (c as int) < 0x10000 then "\\u" + Hex4(c as int)
    else
      var v := (c as int) - 0x10000;
      "\\u" + Hex4(0xD800 + v / 0x400) + "\\u" + Hex4(0xDC00 + v % 0x400)
  }

  function Escape(s: string): (r: string)
    ensures Printable(r)
  {
    if |s| == 0 then ""
    else
      var r := EscapeChar(s[0]) + Escape(s[1..]);
      PrintableConcat(EscapeChar(s[0]), Escape(s[1..]));
      r
  }

  /** A string of printable ASCII without quote or backslash is written verbatim. */
  predicate Verbatim(s: string) {
    forall i :: 0 <= i < |s| ==> ' ' <= s[i] <= '~' && s[i] != '"' && s[i] != '\\'
  }

  lemma {:induction false} EscapeVerbatim(s: string)
    requires Verbatim(s)
    ensures Escape(s) == s
  {
    if |s| > 0 {
      EscapeVerbatim(s[1..]);
      assert s == [s[0]] + s[1..];
    }
  }

  function Quote(s: string): (r: string)
    ensures Printable(r)
  {
    PrintableConcat("\"", Escape(s));
    PrintableConcat("\"" + Escape(s), "\"");
    "\"" + Escape(s) + "\""
  }

  /** Compact JSON text (`separators=(",", ":")`, `ensure_ascii=True`). The result is
      printable ASCII, so in particular it never contains a line break. */
  function Serialize(j: Json): (r: string)
    ensures Printable(r)
    ensures |r| > 0
    ensures j.JObj? ==> r[0] == '{' && r[|r| - 1] == '}'
    ensures j.JArr? ==> r[0] == '[' && r[|r| - 1] == ']'
    decreases j, 1
  {
    match j
    case JNull => "null"
    case JBool(b) => if b then "true" else "false"
    case JInt(i) => IntToString(i)
    case JStr(s) => Quote(s)
    case JArr(items) =>
      var parts := ItemTexts(items, j);
      JoinPrintable(parts, ",");
      Bracket("[", Join(parts, ","), "]")
    case JObj(fields) =>
      var parts := MemberTexts(fields, j);
      JoinPrintable(parts, ",");
      Bracket("{", Join(parts, ","), "}")
  }

  /** The texts of an array's items, in order. */
  function ItemTexts(items: seq<Json>, ghost parent: Json): (r: seq<string>)
    requires forall k :: 0 <= k < |items| ==> items[k] < parent
    ensures |r| == |items|
    ensures forall k :: 0 <= k < |r| ==> r[k] == Serialize(items[k]) && Printable(r[k])
    decreases parent, 0, |items|
  {
    if |items| == 0 then [] else [Serialize(items[0])] + ItemTexts(items[1..], parent)
  }

  /** The `"key":value` texts of an object's members, in order. */
  function MemberTexts(fields: seq<(string, Json)>, ghost parent: Json): (r: seq<string>)
    requires forall k :: 0 <= k < |fields| ==> fields[k].1 < parent
    ensures |r| == |fields|
    ensures forall k :: 0 <= k < |r| ==> r[k] == Member(fields[k].0, Serialize(fields[k].1)) && Printable(r[k])
    decreases parent, 0, |fields|
  {
    if |fields| == 0 then [] else [Member(fields[0].0, Serialize(fields[0].1))] + MemberTexts(fields[1..], parent)
  }

  /** Joining printable pieces with a printable separator gives printable text. */
  lemma {:induction false} JoinPrintable(parts: seq<string>, sep: string)
    requires Printable(sep) && forall k :: 0 <= k < |parts| ==> Printable(parts[k])
    ensures Printable(Join(parts, sep))
    decreases |parts|
  {
    if |parts| > 1 {
      JoinPrintable(parts[1..], sep);
      PrintableConcat(parts[0], sep);
      PrintableConcat(parts[0] + sep, Join(parts[1..], sep));
    }
  }

  /** Every piece of a join appears in the joined text. */
  lemma {:induction false} JoinHasPart(parts: seq<string>, sep: string, i: nat) returns (a: string, b: string)
    requires i < |parts|
    ensures Join(parts, sep) == a + parts[i] + b
    decreases |parts|
  {
    if |parts| == 1 {
      a, b := "", "";
    } else if i == 0 {
      a, b := "", sep + Join(parts[1..], sep);
    } else {
      var x, y := JoinHasPart(parts[1..], sep, i - 1);
      a, b := parts[0] + sep + x, y;
    }
  }

  /** Every member of an object appears, as `"key":value`, in the object's text. */
  lemma ObjectTextHasMember(fields: seq<(string, Json)>, i: nat) returns (a: string, b: string)
    requires i < |fields|
    ensures Serialize(JObj(fields)) == a + Member(fields[i].0, Serialize(fields[i].1)) + b
  {
    var parts := MemberTexts(fields, JObj(fields));
    var x, y := JoinHasPart(parts, ",", i);
    a, b := "{" + x, y + "}";
  }

  /** A string member whose value needs no escaping appears verbatim in the object's text. */
  lemma ObjectTextHasString(fields: seq<(string, Json)>, i: nat, v: string)
    requires i < |fields| && fields[i].1 == JStr(v) && Verbatim(v)
    ensures Contains(Serialize(JObj(fields)), v)
  {
    var a, b := ObjectTextHasMember(fields, i);
    VerbatimMemberHasValue(fields[i].0, v);
    ContainsExtend(a, Member(fields[i].0, Serialize(fields[i].1)), b, v);
  }

  lemma VerbatimMemberHasValue(key: string, v: string)
    requires Verbatim(v)
    ensures Contains(Member(key, Serialize(JStr(v))), v)
  {
    EscapeVerbatim(v);
    ContainsInfix("\"", v, "\"");
    assert Serialize(JStr(v)) == "\"" + v + "\"";
    ContainsAfter(Quote(key) + ":", Serialize(JStr(v)), v);
  }

  function Member(key: string, value: string): (r: string)
    requires Printable(value)
    ensures Printable(r)
  {
    PrintableConcat(Quote(key), ":");
    PrintableConcat(Quote(key) + ":", value);
    Quote(key) + ":" + value
  }

  function Bracket(open: string, body: string, close: string): (r: string)
    requires Printable(open) && Printable(body) && Printable(close)
    ensures Printable(r) && |r| >= |open| + |close|
  {
    PrintableConcat(open, body);
    PrintableConcat(open + body, close);
    open + body + close
  }
}

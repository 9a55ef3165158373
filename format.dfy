/** Formatting: `formatGenomicData` of utils/chat.ts.

    A non-null object (a plain object or an array) is rendered with
    `JSON.stringify(data, null, 2)`; every other value with `String(data)`.
    If serialization throws (a circular structure, a BigInt inside the
    structure), the fixed sentinel is returned instead.

    `JSON.stringify` follows section 25.5.2 of ECMA-262: properties whose
    value is `undefined`, a function or a symbol are left out of an object
    and become `null` inside an array; non-finite numbers become `null`;
    a BigInt throws a TypeError; so does a cycle. With an indent of 2, a
    non-empty object or array puts each entry on its own line, indented two
    spaces deeper than the enclosing level, with `": "` between a key and its
    value; an empty one is `{}` or `[]`. */
module Format {
  import opened Text

  /** A JavaScript number as far as formatting needs it: the text
      `Number::toString` renders for a finite number is given, not computed. */
  datatype JsNumber = Finite(text: string) | NaN | PosInfinity | NegInfinity

  /** A JavaScript value. `Circular` stands for a property or element whose
      value is an object already being serialized (a cycle). The members of
      an object are listed in its own-property enumeration order. */
  datatype JsValue =
    | Undefined
    | Null
    | Bool(b: bool)
    | Num(n: JsNumber)
    | Str(s: string)
    | BigInt(i: int)
    | Function(source: string)
    | Symbol(description: string)
    | Arr(items: seq<JsValue>)
    | Obj(members: seq<Member>)
    | Circular

  datatype Member = Member(key: string, value: JsValue)

  /** What serializing one value gives: its text, nothing (the value is
      skipped), or a thrown TypeError. */
  datatype SerOut = Text(text: string) | Omitted | Throws

  const Gap := "  "

  const Sentinel := "Error formatting genomic data"

  // ---------------------------------------------------------------------
  // Strings in JSON (QuoteJSONString, section 25.5.2.3 of ECMA-262)

  function HexDigit(d: nat): (c: char)
    requires d < 16
  {
    if d < 10 then ('0' as int + d) as char else ('a' as int + d - 10) as char
  }

  /** The escape of one character inside a JSON string literal. */
  function EscapeChar(c: char): string {
    if c == '"' then "\\\""
    else if c == '\\' then "\\\\"
    else if c as int == 8 then "\\b"
    else if c == '\t' then "\\t"
    else if c == '\n' then "\\n"
    else if c as int == 12 then "\\f"
    else if c == '\r' then "\\r"
    else if c as int < 0x20 then "\\u00" + [HexDigit(c as int / 16), HexDigit(c as int % 16)]
    else [c]
  }

  function QuoteBody(s: string): string {
    if s == [] then [] else EscapeChar(s[0]) + QuoteBody(s[1..])
  }

  function Quote(s: string): string {
    "\"" + QuoteBody(s) + "\""
  }

  function HexValue(c: char): Option<nat> {
    if '0' <= c <= '9' then Some(c as int - '0' as int)
    else if 'a' <= c <= 'f' then Some(c as int - 'a' as int + 10)
    else if 'A' <= c <= 'F' then Some(c as int - 'A' as int + 10)
    else None
  }

  function HexQuad(t: string): Option<nat>
    requires |t| == 4
  {
    match (HexValue(t[0]), HexValue(t[1]), HexValue(t[2]), HexValue(t[3]))
    case (Some(a), Some(b), Some(c), Some(d)) => Some(4096 * a + 256 * b + 16 * c + d)
    case _ => None
  }

  function SimpleEscape(e: char): Option<char> {
    if e == '"' || e == '\\' || e == '/' then Some(e)
    else if e == 'b' then Some(8 as char)
    else if e == 'f' then Some(12 as char)
    else if e == 'n' then Some('\n')
    else if e == 'r' then Some('\r')
    else if e == 't' then Some('\t')
    else None
  }

  function Prepend(c: char, o: Option<string>): Option<string> {
    match o
    case None => None
    case Some(s) => Some([c] + s)
  }

  /** The reader of the text between the quotes of a JSON string literal:
      escapes are decoded, and a bare quote or control character is an
      error. A `\u` escape of a lone surrogate is outside this reader. */
  function Unescape(t: string): Option<string>
    decreases |t|
  {
    if t == [] then Some([])
    else if t[0] == '\\' then
      if |t| < 2 then None
      else if SimpleEscape(t[1]).Some? then Prepend(SimpleEscape(t[1]).value, Unescape(t[2..]))
      else if t[1] == 'u' && |t| >= 6 then
        match HexQuad(t[2..6])
        case None => None
        case Some(n) => if n < 0xD800 || 0xE000 <= n then Prepend(n as char, Unescape(t[6..])) else None
      else None
    else if t[0] == '"' || t[0] as int < 0x20 then None
    else Prepend(t[0], Unescape(t[1..]))
  }

  /** The reader of a whole JSON string literal. */
  function Unquote(q: string): Option<string> {
    if |q| >= 2 && q[0] == '"' && q[|q| - 1] == '"' then Unescape(q[1..|q| - 1]) else None
  }

  lemma HexRoundTrip(d: nat)
    requires d < 16
    ensures HexValue(HexDigit(d)) == Some(d)
  {
  }

  /** Reading back one escaped character. */
  lemma UnescapeEscapeChar(c: char, rest: string)
    ensures Unescape(EscapeChar(c) + rest) == Prepend(c, Unescape(rest))
  {
    var t := EscapeChar(c) + rest;
    if c == '"' || c == '\\' || c as int == 8 || c == '\t' || c == '\n' || c as int == 12 || c == '\r' {
      assert t[2..] == rest;
    } else if c as int < 0x20 {
      var hi, lo := c as int / 16, c as int % 16;
      HexRoundTrip(hi);
      HexRoundTrip(lo);
      assert t[2..6] == ['0', '0', HexDigit(hi), HexDigit(lo)];
      assert HexQuad(t[2..6]) == Some(c as int);
      assert t[6..] == rest;
    } else {
      assert t[1..] == rest;
    }
  }

  /** Escaping is undone by the reader: quoting loses nothing. */
  lemma {:induction false} UnescapeQuoteBody(s: string)
    ensures Unescape(QuoteBody(s)) == Some(s)
  {
    if s != [] {
      UnescapeEscapeChar(s[0], QuoteBody(s[1..]));
      UnescapeQuoteBody(s[1..]);
      assert [s[0]] + s[1..] == s;
    }
  }

  lemma UnquoteQuote(s: string)
    ensures Unquote(Quote(s)) == Some(s)
  {
    var q := Quote(s);
    assert q[1..|q| - 1] == QuoteBody(s);
    UnescapeQuoteBody(s);
  }

  /** Quoted text holds no control character: the escapes are printable. */
  lemma {:induction false} QuoteBodyPrintable(s: string)
    ensures forall k :: 0 <= k < |QuoteBody(s)| ==> QuoteBody(s)[k] as int >= 0x20
  {
    if s != [] {
      QuoteBodyPrintable(s[1..]);
      var e := EscapeChar(s[0]);
      var b := QuoteBody(s);
      assert b == e + QuoteBody(s[1..]);
      forall k | 0 <= k < |b| ensures b[k] as int >= 0x20 {
        if k >= |e| {
          assert b[k] == QuoteBody(s[1..])[k - |e|];
        }
      }
    }
  }

  /** Text without quotes, backslashes or control characters goes between
      the quotes verbatim. */
  lemma {:induction false} QuoteBodyPlain(s: string)
    requires forall k :: 0 <= k < |s| ==> s[k] as int >= 0x20 && s[k] != '"' && s[k] != '\\'
    ensures QuoteBody(s) == s
    ensures Quote(s) == "\"" + s + "\""
  {
    if s != [] {
      QuoteBodyPlain(s[1..]);
      assert s == [s[0]] + s[1..];
    }
  }

  // ---------------------------------------------------------------------
  // BigInt to string (BigInt::toString with radix 10)

  function DigitChar(d: nat): (c: char)
    requires d < 10
  {
    ('0' as int + d) as char
  }

  function Decimal(n: nat): string
    decreases n
  {
    if n < 10 then [DigitChar(n)] else Decimal(n / 10) + [DigitChar(n % 10)]
  }

  function BigIntText(i: int): string {
    if i < 0 then "-" + Decimal(-i) else Decimal(i)
  }

  /** The value a string of decimal digits denotes. */
  function DecimalValue(s: string): nat
    requires forall k :: 0 <= k < |s| ==> IsDigit(s[k])
  {
    if s == [] then 0 else 10 * DecimalValue(s[..|s| - 1]) + DigitValue(s[|s| - 1])
  }

  function DigitValue(c: char): nat
    requires IsDigit(c)
  {
    c as int - '0' as int
  }

  /** The decimal rendering is all digits, has no leading zero, and denotes
      the number it renders. */
  lemma {:induction false} DecimalRoundTrip(n: nat)
    ensures |Decimal(n)| > 0 && forall k :: 0 <= k < |Decimal(n)| ==> IsDigit(Decimal(n)[k])
    ensures Decimal(n)[0] == '0' ==> n == 0
    ensures DecimalValue(Decimal(n)) == n
    decreases n
  {
    if n >= 10 {
      DecimalRoundTrip(n / 10);
      var d := Decimal(n);
      assert d[..|d| - 1] == Decimal(n / 10);
    }
  }

  /** Negative BigInts are rendered with a minus sign, without the `n`
      suffix of BigInt literals. */
  lemma BigIntTextRoundTrip(i: int)
    ensures var t := BigIntText(i);
      && (i < 0 <==> t[0] == '-')
      && (i >= 0 ==> (forall k :: 0 <= k < |t| ==> IsDigit(t[k])) && DecimalValue(t) == i)
      && (i < 0 ==> forall k :: 0 <= k < |t[1..]| ==> IsDigit(t[1..][k]))
      && (i < 0 ==> DecimalValue(t[1..]) == -i)
  {
    if i < 0 {
      DecimalRoundTrip(-i);
      assert BigIntText(i)[1..] == Decimal(-i);
    } else {
      DecimalRoundTrip(i);
    }
  }

  // ---------------------------------------------------------------------
  // String(value)

  /** `typeof data === "object" && data !== null`. A cycle can only be made
      of objects. */
  predicate IsObject(v: JsValue) {
    v.Arr? || v.Obj? || v.Circular?
  }

  /** `String(value)` for a value that is not an object. */
  function StringOf(v: JsValue): string
    requires !IsObject(v)
  {
    match v
    case Undefined => "undefined"
    case Null => "null"
    case Bool(b) => if b then "true" else "false"
    case Num(n) =>
      (match n
       case Finite(t) => t
       case NaN => "NaN"
       case PosInfinity => "Infinity"
       case NegInfinity => "-Infinity")
    case Str(s) => s
    case BigInt(i) => BigIntText(i)
    case Function(source) => source
    case Symbol(d) => "Symbol(" + d + ")"
  }

  // ---------------------------------------------------------------------
  // JSON.stringify(value, null, 2)

  function Join(parts: seq<string>, sep: string): string {
    if parts == [] then []
    else if |parts| == 1 then parts[0]
    else parts[0] + sep + Join(parts[1..], sep)
  }

  /** The layout of a non-empty or empty object or array at a given level. */
  function Layout(open: string, close: string, entries: seq<string>, indent: string): string {
    if entries == [] then open + close
    else open + "\n" + indent + Gap + Join(entries, ",\n" + indent + Gap) + "\n" + indent + close
  }

  /** The texts of the elements of an array; a skipped element becomes
      `null`, and a thrown error propagates. */
  function ElementTexts(parts: seq<SerOut>): (r: Option<seq<string>>)
    ensures r.None? <==> exists k :: 0 <= k < |parts| && parts[k].Throws?
    ensures r.Some? ==> |r.value| == |parts|
    ensures r.Some? ==> forall k :: 0 <= k < |parts| ==>
      r.value[k] == (if parts[k].Text? then parts[k].text else "null")
  {
    if parts == [] then Some([])
    else if parts[0].Throws? then None
    else
      match ElementTexts(parts[1..])
      case None => None
      case Some(rest) => Some([if parts[0].Text? then parts[0].text else "null"] + rest)
  }

  /** The `"key": value` entries of an object; skipped members leave no
      entry, and a thrown error propagates. */
  function MemberTexts(keys: seq<string>, parts: seq<SerOut>): (r: Option<seq<string>>)
    requires |keys| == |parts|
    ensures r.None? <==> exists k :: 0 <= k < |parts| && parts[k].Throws?
    ensures r.Some? ==> |r.value| == CountKept(parts)
    ensures r.Some? ==> forall k :: 0 <= k < |parts| && parts[k].Text? ==>
      && CountKept(parts[..k]) < |r.value|
      && r.value[CountKept(parts[..k])] == Quote(keys[k]) + ": " + parts[k].text
  {
    if parts == [] then Some([])
    else if parts[0].Throws? then None
    else
      CountKeptPrefix(parts);
      match MemberTexts(keys[1..], parts[1..])
      case None => None
      case Some(rest) =>
        if parts[0].Text? then Some([Quote(keys[0]) + ": " + parts[0].text] + rest) else Some(rest)
  }

  /** How many serialized members are not skipped. */
  function CountKept(parts: seq<SerOut>): nat {
    if parts == [] then 0 else (if parts[0].Omitted? then 0 else 1) + CountKept(parts[1..])
  }

  /** Counting the kept members of a prefix starts with the first member. */
  lemma CountKeptPrefix(parts: seq<SerOut>)
    requires parts != []
    ensures forall k :: 0 < k <= |parts| ==>
      CountKept(parts[..k]) == (if parts[0].Omitted? then 0 else 1) + CountKept(parts[1..][..k - 1])
  {
    forall k | 0 < k <= |parts|
      ensures CountKept(parts[..k]) == (if parts[0].Omitted? then 0 else 1) + CountKept(parts[1..][..k - 1])
    {
      assert parts[..k][1..] == parts[1..][..k - 1];
    }
  }

  function Keys(members: seq<Member>): (r: seq<string>)
    ensures |r| == |members|
  {
    seq(|members|, k requires 0 <= k < |members| => members[k].key)
  }

  /** SerializeJSONProperty with an indent of two spaces, at the nesting
      level whose indentation is `indent`. */
  function Ser(v: JsValue, indent: string): SerOut
    decreases v
  {
    match v
    case Undefined => Omitted
    case Function(_) => Omitted
    case Symbol(_) => Omitted
    case Null => Text("null")
    case Bool(b) => Text(if b then "true" else "false")
    case Num(n) => Text(if n.Finite? then n.text else "null")
    case Str(s) => Text(Quote(s))
    case BigInt(_) => Throws
    case Circular => Throws
    case Arr(items) =>
      var parts := seq(|items|, k requires 0 <= k < |items| => Ser(items[k], indent + Gap));
      (match ElementTexts(parts)
       case None => Throws
       case Some(entries) => Text(Layout("[", "]", entries, indent)))
    case Obj(members) =>
      var parts := seq(|members|, k requires 0 <= k < |members| => Ser(members[k].value, indent + Gap));
      (match MemberTexts(Keys(members), parts)
       case None => Throws
       case Some(entries) => Text(Layout("{", "}", entries, indent)))
  }

  /** Some value inside the structure cannot be serialized. */
  predicate HasUnserializable(v: JsValue)
    decreases v
  {
    match v
    case BigInt(_) => true
    case Circular => true
    case Arr(items) => exists k :: 0 <= k < |items| && HasUnserializable(items[k])
    case Obj(members) => exists k :: 0 <= k < |members| && HasUnserializable(members[k].value)
    case _ => false
  }

  /** `undefined`, functions and symbols are the values serialization
      skips. */
  predicate Skipped(v: JsValue) {
    v.Undefined? || v.Function? || v.Symbol?
  }

  /** Serialization throws exactly when a BigInt or a cycle is reached. */
  lemma {:induction false} SerThrowsIff(v: JsValue, indent: string)
    ensures Ser(v, indent).Throws? <==> HasUnserializable(v)
    decreases v
  {
    match v
    case Arr(items) =>
      var parts := seq(|items|, k requires 0 <= k < |items| => Ser(items[k], indent + Gap));
      forall k | 0 <= k < |items| ensures parts[k].Throws? <==> HasUnserializable(items[k]) {
        SerThrowsIff(items[k], indent + Gap);
      }
      assert Ser(v, indent).Throws? <==> ElementTexts(parts).None?;
    case Obj(members) =>
      var parts := seq(|members|, k requires 0 <= k < |members| => Ser(members[k].value, indent + Gap));
      forall k | 0 <= k < |members| ensures parts[k].Throws? <==> HasUnserializable(members[k].value) {
        SerThrowsIff(members[k].value, indent + Gap);
      }
      assert Ser(v, indent).Throws? <==> MemberTexts(Keys(members), parts).None?;
    case _ =>
  }

  /** Serialization skips exactly `undefined`, functions and symbols; an
      object or array always yields text or throws. */
  lemma SerOmittedIff(v: JsValue, indent: string)
    ensures Ser(v, indent).Omitted? <==> Skipped(v)
  {
  }

  /** An object or array without unserializable values is rendered between
      its brackets, on one line when empty and over several lines otherwise. */
  lemma SerBrackets(v: JsValue, indent: string)
    requires v.Arr? || v.Obj?
    requires !HasUnserializable(v)
    ensures Ser(v, indent).Text?
    ensures var t := Ser(v, indent).text;
      && |t| >= 2
      && t[0] == (if v.Arr? then '[' else '{')
      && t[|t| - 1] == (if v.Arr? then ']' else '}')
  {
    SerThrowsIff(v, indent);
  }

  /** An array keeps one entry per element, skipped elements as `null`. */
  lemma ArrayKeepsEveryElement(items: seq<JsValue>, indent: string)
    requires !HasUnserializable(Arr(items))
    ensures var parts := seq(|items|, k requires 0 <= k < |items| => Ser(items[k], indent + Gap));
      && ElementTexts(parts).Some?
      && |ElementTexts(parts).value| == |items|
      && forall k :: 0 <= k < |items| && Skipped(items[k]) ==> ElementTexts(parts).value[k] == "null"
  {
    SerThrowsIff(Arr(items), indent);
    var parts := seq(|items|, k requires 0 <= k < |items| => Ser(items[k], indent + Gap));
    forall k | 0 <= k < |items| && Skipped(items[k]) ensures parts[k].Omitted? {
      SerOmittedIff(items[k], indent + Gap);
    }
  }

  lemma ObjParts(key: string, v: JsValue, indent: string)
    ensures var members := [Member(key, v)];
      seq(|members|, k requires 0 <= k < |members| => Ser(members[k].value, indent + Gap)) == [Ser(v, indent + Gap)]
  {
  }

  lemma SerObjUnfold(members: seq<Member>, indent: string)
    ensures Ser(Obj(members), indent) ==
      var parts := seq(|members|, k requires 0 <= k < |members| => Ser(members[k].value, indent + Gap));
      match MemberTexts(Keys(members), parts)
      case None => Throws
      case Some(entries) => Text(Layout("{", "}", entries, indent))
  {
  }

  lemma SingleMemberTexts(key: string, t: string)
    ensures MemberTexts([key], [Text(t)]) == Some([Quote(key) + ": " + t])
  {
    assert [key][1..] == [] && [Text(t)][1..] == [];
    assert MemberTexts([], []) == Some([]);
    assert [Quote(key) + ": " + t] + [] == [Quote(key) + ": " + t];
  }

  lemma SingleLayout(open: string, close: string, e: string, indent: string)
    ensures Layout(open, close, [e], indent) == open + "\n" + indent + Gap + e + "\n" + indent + close
  {
  }

  /** An object with one member that serializes to `t` puts `"key": t` on a
      line of its own, one level deeper than its braces. */
  lemma SerSingleMember(key: string, v: JsValue, indent: string, t: string)
    requires Ser(v, indent + Gap) == Text(t)
    ensures Ser(Obj([Member(key, v)]), indent) == Text("{" + "\n" + indent + Gap + (Quote(key) + ": " + t) + "\n" + indent + "}")
  {
    ObjParts(key, v, indent);
    SerObjUnfold([Member(key, v)], indent);
    assert Keys([Member(key, v)]) == [key];
    SingleMemberTexts(key, t);
    SingleLayout("{", "}", Quote(key) + ": " + t, indent);
  }

  lemma ArrParts(v: JsValue, indent: string)
    ensures var items := [v];
      seq(|items|, k requires 0 <= k < |items| => Ser(items[k], indent + Gap)) == [Ser(v, indent + Gap)]
  {
  }

  lemma SerArrUnfold(items: seq<JsValue>, indent: string)
    ensures Ser(Arr(items), indent) ==
      var parts := seq(|items|, k requires 0 <= k < |items| => Ser(items[k], indent + Gap));
      match ElementTexts(parts)
      case None => Throws
      case Some(entries) => Text(Layout("[", "]", entries, indent))
  {
  }

  /** An array with one element that serializes to `t` puts `t` on a line of
      its own, one level deeper than its brackets. */
  lemma SerSingleElement(v: JsValue, indent: string, t: string)
    requires Ser(v, indent + Gap) == Text(t)
    ensures Ser(Arr([v]), indent) == Text("[" + "\n" + indent + Gap + t + "\n" + indent + "]")
  {
    ArrParts(v, indent);
    SerArrUnfold([v], indent);
    assert [Text(t)][1..] == [];
    assert ElementTexts([]) == Some([]);
    assert [t] + [] == [t];
    assert ElementTexts([Text(t)]) == Some([t]);
    SingleLayout("[", "]", t, indent);
  }

  // ---------------------------------------------------------------------
  // formatGenomicData

  /** `formatGenomicData`: never throws; objects are serialized, other values
      converted to strings, and a failure becomes the sentinel. */
  function FormatGenomicData(data: JsValue): (r: string)
    ensures IsObject(data) && HasUnserializable(data) ==> r == Sentinel
    ensures IsObject(data) && !HasUnserializable(data) ==> Ser(data, "").Text? && r == Ser(data, "").text
    ensures !IsObject(data) ==> r == StringOf(data)
  {
    SerThrowsIff(data, "");
    SerOmittedIff(data, "");
    if IsObject(data) then
      match Ser(data, "")
      case Text(t) => t
      case Throws => Sentinel
      case Omitted => assert false; Sentinel
    else
      StringOf(data)
  }
}

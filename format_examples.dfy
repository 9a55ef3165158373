/** Worked examples of `formatGenomicData` on concrete values. */
module FormatExamples {
  import opened Text
  import opened Format

  /** Values that are not objects go through `String`: `null` (whose
      `typeof` is "object", but which the null test excludes), `undefined`,
      and a string, which keeps no quotes. */
  lemma PrimitivesAreStrings(a: JsValue, b: JsValue, c: JsValue, d: JsValue)
    requires a == Null && b == Undefined && c == Str("BRCA1") && d == Num(NaN)
    ensures FormatGenomicData(a) == "null"
    ensures FormatGenomicData(b) == "undefined"
    ensures FormatGenomicData(c) == "BRCA1"
    ensures FormatGenomicData(d) == "NaN"
  {
  }

  /** Empty containers stay on one line. */
  lemma EmptyContainers(a: JsValue, o: JsValue)
    requires a == Arr([]) && o == Obj([Member("x", Undefined)])
    ensures FormatGenomicData(a) == "[]"
    ensures FormatGenomicData(o) == "{}"
  {
    var parts := seq(|o.members|, k requires 0 <= k < |o.members| => Ser(o.members[k].value, Gap));
    assert parts == [Omitted];
  }

  /** A BigInt anywhere inside makes the serializer throw, and the sentinel
      is returned instead; a BigInt on its own is converted with `String`. */
  lemma BigIntGivesSentinel(v: JsValue, b: JsValue)
    requires v == Obj([Member("count", BigInt(10))]) && b == BigInt(-10)
    ensures FormatGenomicData(v) == Sentinel
    ensures FormatGenomicData(b) == "-10"
  {
    assert HasUnserializable(v.members[0].value);
    assert Decimal(10) == "10";
  }

  /** A one-member object puts its member on its own line, two spaces in,
      with the key quoted and a space after the colon. */
  lemma OneMemberLayout()
    ensures FormatGenomicData(Obj([Member("a", Num(Finite("1")))])) == "{\n  \"a\": 1\n}"
  {
    SerSingleMember("a", Num(Finite("1")), "", "1");
    assert Quote("a") == "\"a\"";
    assert "{" + "\n" + "" + Gap + ("\"a\"" + ": " + "1") + "\n" + "" + "}" == "{\n  \"a\": 1\n}";
  }

  lemma NestedInner(one: JsValue)
    requires one == Num(Finite("1"))
    ensures Ser(Arr([one]), Gap) == Text("[\n    1\n  ]")
  {
    SerSingleElement(one, Gap, "1");
    assert "[" + "\n" + Gap + Gap + "1" + "\n" + Gap + "]" == "[\n    1\n  ]";
  }

  lemma QuoteA()
    ensures Quote("a") == "\"a\""
  {
  }

  lemma OuterText(inner: string)
    requires inner == "[\n    1\n  ]"
    ensures "{" + "\n" + "" + Gap + ("\"a\"" + ": " + inner) + "\n" + "" + "}" == "{\n  \"a\": [\n    1\n  ]\n}"
  {
    assert "\"a\"" + ": " + inner == "\"a\": [\n    1\n  ]";
  }

  lemma NestedOuter(arr: JsValue, inner: string)
    requires inner == "[\n    1\n  ]" && Ser(arr, Gap) == Text(inner)
    ensures Ser(Obj([Member("a", arr)]), "") == Text("{\n  \"a\": [\n    1\n  ]\n}")
  {
    assert "" + Gap == Gap;
    SerSingleMember("a", arr, "", inner);
    QuoteA();
    OuterText(inner);
  }

  /** A nested array goes one level deeper: its element is indented by four
      spaces, and its closing bracket lines up with its key. */
  lemma NestedLayout(one: JsValue, arr: JsValue, v: JsValue)
    requires one == Num(Finite("1")) && arr == Arr([one]) && v == Obj([Member("a", arr)])
    ensures FormatGenomicData(v) == "{\n  \"a\": [\n    1\n  ]\n}"
  {
    NestedInner(one);
    NestedOuter(arr, "[\n    1\n  ]");
    assert !HasUnserializable(arr);
  }
}

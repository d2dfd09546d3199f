/** `parseTypedValue`: turns the text of one input field into a typed value,
    driven by the field's ABI type string, or fails with an error tag.
    Both versions of the component have the same rules; only the wording of
    their messages differs. */
module ValueParser {
  import opened Wrappers
  import opened Strings
  import opened Decimal
  import opened Values

  /** `type.startsWith('uint') || type.startsWith('int')` */
  predicate IsIntegerType(ty: string) {
    StartsWith(ty, "uint") || StartsWith(ty, "int")
  }

  /** `type.slice(0, -2)` for an array type. */
  function ElementType(ty: string): string
    requires EndsWith(ty, "[]")
  {
    ty[..|ty| - 2]
  }

  /** The checks in the order the source makes them: array suffix first, then
      the integer prefixes, `bool`, `address`, `string`, the `bytes` prefix,
      `tuple`, and otherwise an unsupported type. */
  function Parse(lib: Lib, text: string, ty: string): Result<Value, Error>
    decreases |ty|, 0
  {
    if EndsWith(ty, "[]") then
      var elem := ElementType(ty);
      if Contains(elem, "tuple") then
        match lib.jsonParse(text)
        case Some(v) => Ok(v)
        case None => Err(InvalidStructArray)
      else
        match ParseEach(lib, Split(text, ','), elem)
        case Ok(vs) => Ok(List(vs))
        case Err(_) => Err(InvalidArray(elem))
    else if IsIntegerType(ty) then
      if IsIntegerLiteral(text) then Ok(Int(LiteralValue(text))) else Err(InvalidNumber(ty))
    else if ty == "bool" then
      if text == "true" then Ok(Bool(true))
      else if text == "false" then Ok(Bool(false))
      else Err(InvalidBoolean)
    else if ty == "address" then
      if lib.isAddress(text) then Ok(Text(text)) else Err(InvalidAddress)
    else if ty == "string" then
      Ok(Text(text))
    else if StartsWith(ty, "bytes") then
      Ok(Text(text))
    else if ty == "tuple" then
      match lib.jsonParse(text)
      case Some(v) => Ok(v)
      case None => Err(InvalidTuple)
    else
      Err(Unsupported(ty))
  }

  /** `pieces.map(v => parseTypedValue(v.trim(), elem))`, stopping at the first
      piece that throws. */
  function ParseEach(lib: Lib, pieces: seq<string>, elem: string): Result<seq<Value>, Error>
    decreases |elem| + 1, |pieces|
  {
    if pieces == [] then Ok([])
    else
      match Parse(lib, Trim(pieces[0]), elem)
      case Err(e) => Err(e)
      case Ok(v) =>
        match ParseEach(lib, pieces[1..], elem)
        case Err(e) => Err(e)
        case Ok(vs) => Ok([v] + vs)
  }

  /** A value parser: from a text and an ABI type to a value or an error. */
  type Parser = (string, string) -> Result<Value, Error>

  /** `parseTypedValue` as a function value. */
  function ParserOf(lib: Lib): (parse: Parser)
    ensures forall text, ty :: parse(text, ty) == Parse(lib, text, ty)
  {
    (text, ty) => Parse(lib, text, ty)
  }

  lemma NotStartsWith(s: string, prefix: string)
    requires |s| > 0 && |prefix| > 0 && s[0] != prefix[0]
    ensures !StartsWith(s, prefix)
  {
    if |prefix| <= |s| { assert s[..|prefix|][0] != prefix[0]; }
  }

  lemma NotEndsWith(s: string, suffix: string)
    requires |s| > 0 && |suffix| > 0 && s[|s| - 1] != suffix[|suffix| - 1]
    ensures !EndsWith(s, suffix)
  {
    if |suffix| <= |s| { assert s[|s| - |suffix|..][|suffix| - 1] == s[|s| - 1]; }
  }

  /** Integers: accepted exactly when the text is an optional sign and one or
      more ASCII digits, giving that integer; no width or sign check. */
  lemma ParseInteger(lib: Lib, text: string, ty: string)
    requires IsIntegerType(ty) && !EndsWith(ty, "[]")
    ensures Parse(lib, text, ty).Ok? <==> IsIntegerLiteral(text)
    ensures IsIntegerLiteral(text) ==> Parse(lib, text, ty) == Ok(Int(LiteralValue(text)))
    ensures !IsIntegerLiteral(text) ==> Parse(lib, text, ty) == Err(InvalidNumber(ty))
  {
  }

  /** A negative number is accepted for an unsigned type. */
  lemma UnsignedAcceptsNegative(lib: Lib)
    ensures Parse(lib, "-5", "uint256") == Ok(Int(-5))
  {
    assert Unsigned("-5") == "5";
    assert "5"[..0] == [];
  }

  /** Whitespace is not trimmed from a scalar field, so `" 1"` is rejected. */
  lemma ScalarNotTrimmed(lib: Lib)
    ensures Parse(lib, " 1", "uint256") == Err(InvalidNumber("uint256"))
    ensures Parse(lib, "true ", "bool") == Err(InvalidBoolean)
  {
    assert "uint256"[..4] == "uint";
    NotEndsWith("uint256", "[]");
    ParseInteger(lib, " 1", "uint256");
    assert !IsDigit(Unsigned(" 1")[0]);
    ParseBool(lib, "true ");
  }

  /** Booleans: exactly `"true"` and `"false"`, case-sensitive. */
  lemma ParseBool(lib: Lib, text: string)
    ensures Parse(lib, text, "bool").Ok? <==> text == "true" || text == "false"
    ensures Parse(lib, text, "bool").Ok? ==> Parse(lib, text, "bool") == Ok(Bool(text == "true"))
    ensures Parse(lib, text, "bool").Err? ==> Parse(lib, text, "bool").error == InvalidBoolean
  {
    NotEndsWith("bool", "[]");
    NotStartsWith("bool", "uint");
    NotStartsWith("bool", "int");
  }

  /** Addresses: whatever the address check accepts, unchanged. */
  lemma ParseAddress(lib: Lib, text: string)
    ensures Parse(lib, text, "address") ==
            if lib.isAddress(text) then Ok(Text(text)) else Err(InvalidAddress)
  {
    NotEndsWith("address", "[]");
    NotStartsWith("address", "uint");
    NotStartsWith("address", "int");
  }

  /** `string` and every `bytes…` type take any text unchanged, the empty text
      included. */
  lemma ParseTextual(lib: Lib, text: string, ty: string)
    requires ty == "string" || (StartsWith(ty, "bytes") && !EndsWith(ty, "[]"))
    ensures Parse(lib, text, ty) == Ok(Text(text))
  {
    if ty == "string" {
      NotEndsWith(ty, "[]");
    } else {
      assert ty[0] == "bytes"[0];
    }
    NotStartsWith(ty, "uint");
    NotStartsWith(ty, "int");
  }

  /** A `tuple` is whatever JSON parsing gives. */
  lemma ParseTuple(lib: Lib, text: string)
    ensures Parse(lib, text, "tuple") ==
            match lib.jsonParse(text) case Some(v) => Ok(v) case None => Err(InvalidTuple)
  {
    NotEndsWith("tuple", "[]");
    NotStartsWith("tuple", "uint");
    NotStartsWith("tuple", "int");
    NotStartsWith("tuple", "bytes");
  }

  /** Any type string outside the recognised forms always fails. */
  lemma ParseUnsupported(lib: Lib, text: string, ty: string)
    requires !EndsWith(ty, "[]") && !IsIntegerType(ty) && !StartsWith(ty, "bytes")
    requires ty !in {"bool", "address", "string", "tuple"}
    ensures Parse(lib, text, ty) == Err(Unsupported(ty))
  {
  }

  /** An array whose element type mentions `tuple`: the whole text goes to
      JSON parsing. */
  lemma ParseStructArray(lib: Lib, text: string, ty: string)
    requires EndsWith(ty, "[]") && Contains(ElementType(ty), "tuple")
    ensures Parse(lib, text, ty) ==
            match lib.jsonParse(text) case Some(v) => Ok(v) case None => Err(InvalidStructArray)
  {
  }

  /** ParseEach succeeds exactly when every trimmed piece parses, and then
      holds those values in order. */
  lemma {:induction false} ParseEachAll(lib: Lib, pieces: seq<string>, elem: string)
    ensures ParseEach(lib, pieces, elem).Ok? <==>
            forall i :: 0 <= i < |pieces| ==> Parse(lib, Trim(pieces[i]), elem).Ok?
    ensures ParseEach(lib, pieces, elem).Ok? ==>
            |ParseEach(lib, pieces, elem).value| == |pieces| &&
            forall i :: 0 <= i < |pieces| ==>
              Parse(lib, Trim(pieces[i]), elem) == Ok(ParseEach(lib, pieces, elem).value[i])
    decreases |pieces|
  {
    if pieces != [] {
      ParseEachAll(lib, pieces[1..], elem);
      if Parse(lib, Trim(pieces[0]), elem).Ok? && ParseEach(lib, pieces[1..], elem).Ok? {
        var vs := ParseEach(lib, pieces, elem).value;
        forall i | 0 <= i < |pieces| ensures Parse(lib, Trim(pieces[i]), elem) == Ok(vs[i]) {
          if i > 0 { assert pieces[1..][i - 1] == pieces[i]; }
        }
      } else if Parse(lib, Trim(pieces[0]), elem).Ok? {
        var j :| 0 <= j < |pieces[1..]| && !Parse(lib, Trim(pieces[1..][j]), elem).Ok?;
        assert pieces[1..][j] == pieces[j + 1];
      }
    }
  }

  /** Arrays of a non-tuple element type: the text is split on commas and
      every trimmed piece parsed as the element type (recursively for nested
      arrays). It succeeds exactly when every piece does, with one element per
      piece (one more than there are commas) and nothing dropped; otherwise
      the whole array fails. */
  lemma ParseArray(lib: Lib, text: string, ty: string)
    requires EndsWith(ty, "[]") && !Contains(ElementType(ty), "tuple")
    ensures Parse(lib, text, ty).Ok? <==>
            forall i :: 0 <= i < |Split(text, ',')| ==>
              Parse(lib, Trim(Split(text, ',')[i]), ElementType(ty)).Ok?
    ensures Parse(lib, text, ty).Err? ==> Parse(lib, text, ty).error == InvalidArray(ElementType(ty))
    ensures Parse(lib, text, ty).Ok? ==>
            var r := Parse(lib, text, ty).value;
            r.List? && |r.items| == |Split(text, ',')| == CountChar(text, ',') + 1 &&
            forall i :: 0 <= i < |Split(text, ',')| ==>
              Parse(lib, Trim(Split(text, ',')[i]), ElementType(ty)) == Ok(r.items[i])
  {
    var elem := ElementType(ty);
    var pieces := Split(text, ',');
    ParseArrayUnfold(lib, text, ty);
    ParseEachAll(lib, pieces, elem);
    SplitCount(text, ',');
  }

  lemma ParseArrayUnfold(lib: Lib, text: string, ty: string)
    requires EndsWith(ty, "[]") && !Contains(ElementType(ty), "tuple")
    ensures Parse(lib, text, ty) ==
            match ParseEach(lib, Split(text, ','), ElementType(ty))
            case Ok(vs) => Ok(List(vs))
            case Err(_) => Err(InvalidArray(ElementType(ty)))
  {
  }

  /** Printing an integer in decimal and parsing it back as an integer type
      gives the same integer. */
  lemma IntegerRoundTrip(lib: Lib, n: int, ty: string)
    requires IsIntegerType(ty) && !EndsWith(ty, "[]")
    ensures Parse(lib, IntToString(n), ty) == Ok(Int(n))
  {
    IntToStringRoundTrip(n);
  }

  /** The decimal text of an integer holds no comma and is not changed by trim. */
  lemma IntTextIsPlain(n: int)
    ensures ',' !in IntToString(n) && Trim(IntToString(n)) == IntToString(n)
  {
    IntToStringRoundTrip(n);
    var t := IntToString(n);
    var u := Unsigned(t);
    var off := |t| - |u|;
    assert AllDigits(u) && |u| > 0 && t[off..] == u;
    forall k | 0 <= k < |t| ensures t[k] != ',' {
      if k >= off { assert t[k] == u[k - off]; }
    }
    assert !IsWhitespace(t[0]) by {
      if off == 0 { assert t[0] == u[0]; }
    }
    assert t[|t| - 1] == u[|u| - 1];
  }

  function IntTexts(ns: seq<int>): (ts: seq<string>)
    ensures |ts| == |ns| && forall i :: 0 <= i < |ns| ==> ts[i] == IntToString(ns[i])
  {
    seq(|ns|, i requires 0 <= i < |ns| => IntToString(ns[i]))
  }

  function IntValues(ns: seq<int>): (vs: seq<Value>)
    ensures |vs| == |ns| && forall i :: 0 <= i < |ns| ==> vs[i] == Int(ns[i])
  {
    seq(|ns|, i requires 0 <= i < |ns| => Int(ns[i]))
  }

  /** The decimal texts of integers, joined with commas, parse as an integer
      array to exactly those integers. */
  lemma IntArrayRoundTrip(lib: Lib, ns: seq<int>, elem: string)
    requires |ns| > 0
    requires IsIntegerType(elem) && !EndsWith(elem, "[]") && !Contains(elem, "tuple")
    ensures Parse(lib, Join(IntTexts(ns), ","), elem + "[]") == Ok(List(IntValues(ns)))
  {
    var texts := IntTexts(ns);
    var ty := elem + "[]";
    assert EndsWith(ty, "[]") && ElementType(ty) == elem;
    forall i | 0 <= i < |texts|
      ensures ',' !in texts[i] && Parse(lib, Trim(texts[i]), elem) == Ok(Int(ns[i]))
    {
      IntTextIsPlain(ns[i]);
      IntegerRoundTrip(lib, ns[i], elem);
    }
    SplitJoin(texts, ',');
    ParseArray(lib, Join(texts, ","), ty);
    var r := Parse(lib, Join(texts, ","), ty);
    assert r.Ok?;
    assert r.value.items == IntValues(ns);
  }
}

/** Field validation: the live check made on every edit (two versions) and
    the re-validation of all declared arguments when a call is made (all at
    once in the current version, stopping at the first failure in the older
    one). */
module Validation {
  import opened Wrappers
  import opened Strings
  import opened Values
  import opened ValueParser

  /** Live check of the current version: the parser's error, if any. The
      field of a payable function's value is edited without a type, and the
      parser then throws a TypeError. The "field cannot be empty" message the
      handler computes is never stored. */
  function EditError(lib: Lib, text: string, ty: Option<string>): Option<Error> {
    match ty
    case None => Some(MissingType)
    case Some(t) =>
      match Parse(lib, text, t)
      case Ok(_) => None
      case Err(e) => Some(e)
  }

  /** An empty field gets no "empty" error: for `string` and `bytes…` types
      it is accepted, and for other types the parser's own error is stored. */
  lemma EmptyFieldNotReported(lib: Lib)
    ensures EditError(lib, "", Some("string")) == None
    ensures EditError(lib, "", Some("bytes32")) == None
    ensures EditError(lib, "", Some("uint256")) == Some(InvalidNumber("uint256"))
    ensures EditError(lib, "", None) == Some(MissingType)
  {
    ParseTextual(lib, "", "string");
    assert "bytes32"[..5] == "bytes";
    NotEndsWith("bytes32", "[]");
    ParseTextual(lib, "", "bytes32");
    ParseInteger(lib, "", "uint256");
  }

  /** The parser never produces the empty-field error, whatever the text and
      the type. */
  lemma ParseNeverFieldEmpty(lib: Lib, text: string, ty: string)
    ensures Parse(lib, text, ty) != Err(FieldEmpty)
  {
    if EndsWith(ty, "[]") {}
  }

  /** So the live check of the current version never stores the empty-field
      error, for any edit. */
  lemma EditNeverFieldEmpty(lib: Lib, text: string, ty: Option<string>)
    ensures EditError(lib, text, ty) != Some(FieldEmpty)
  {
    if ty.Some? {
      ParseNeverFieldEmpty(lib, text, ty.value);
    }
  }

  /** Live check of the older version: it ignores the type and only asks
      whether the trimmed text is empty. */
  function EmptinessError(text: string): (e: Option<Error>)
    ensures e.Some? <==> AllWhitespace(text)
    ensures e.Some? ==> e.value == FieldEmpty
  {
    TrimEmptyIff(text);
    if Trim(text) == "" then Some(FieldEmpty) else None
  }

  /** `rawInputs[i] ?? ""` */
  function ArgText(raw: map<Key, string>, i: nat): string {
    if Arg(i) in raw then raw[Arg(i)] else ""
  }

  /** Parsing the `i`-th declared argument from the stored texts; `parse`
      is the value parser the component uses (`ParserOf`). */
  function ParseArg(parse: Parser, raw: map<Key, string>, params: seq<Param>, i: nat): Result<Value, Error>
    requires i < |params|
  {
    parse(ArgText(raw, i), params[i].ty)
  }

  /** The keys of the first `n` arguments. */
  function ArgKeys(n: nat): (ks: set<Key>)
    ensures forall k :: k in ks <==> k.Arg? && k.index < n
  {
    set i | 0 <= i < n :: Arg(i)
  }

  /** The outcome of parsing every declared argument, in order. */
  function ParseResults(parse: Parser, raw: map<Key, string>, params: seq<Param>): (rs: seq<Result<Value, Error>>)
    ensures |rs| == |params|
    ensures forall i {:trigger ParseArg(parse, raw, params, i)} ::
              0 <= i < |params| ==> rs[i] == ParseArg(parse, raw, params, i)
  {
    seq(|params|, i requires 0 <= i < |params| => ParseArg(parse, raw, params, i))
  }

  /** The failures among the first `n` outcomes, keyed by index. */
  function ErrorsOf(rs: seq<Result<Value, Error>>, n: nat): (errs: map<Key, Error>)
    requires n <= |rs|
    ensures forall k :: k in errs <==> k.Arg? && k.index < n && rs[k.index].Err?
    ensures forall k :: k in errs ==> rs[k.index] == Err(errs[k])
  {
    map k | k in ArgKeys(n) && rs[k.index].Err? :: rs[k.index].error
  }

  /** The values among the first `n` outcomes that succeeded, in order
      (`inputArray`). */
  function OksOf(rs: seq<Result<Value, Error>>, n: nat): seq<Value>
    requires n <= |rs|
  {
    if n == 0 then []
    else OksOf(rs, n - 1) + match rs[n - 1] case Ok(v) => [v] case Err(_) => []
  }

  /** With no failure among them, the values are all the outcomes, in order. */
  lemma {:induction false} OksWhenNoErrors(rs: seq<Result<Value, Error>>, n: nat)
    requires n <= |rs|
    requires forall i :: 0 <= i < n ==> rs[i].Ok?
    ensures |OksOf(rs, n)| == n
    ensures forall i :: 0 <= i < n ==> rs[i] == Ok(OksOf(rs, n)[i])
    decreases n
  {
    if n > 0 {
      OksWhenNoErrors(rs, n - 1);
    }
  }

  /** One more outcome adds its failure, if any, under its own index. */
  lemma ErrorsOfStep(rs: seq<Result<Value, Error>>, n: nat)
    requires n < |rs|
    ensures ErrorsOf(rs, n + 1) ==
            match rs[n] case Ok(_) => ErrorsOf(rs, n) case Err(e) => ErrorsOf(rs, n)[Arg(n) := e]
  {
  }

  /** The errors of all declared arguments: exactly the failing indices, each
      with its own error. */
  function ExpectedErrors(parse: Parser, raw: map<Key, string>, params: seq<Param>): (errs: map<Key, Error>)
    ensures forall k :: k in errs <==> k.Arg? && k.index < |params| && ParseArg(parse, raw, params, k.index).Err?
    ensures forall k :: k in errs ==> ParseArg(parse, raw, params, k.index) == Err(errs[k])
  {
    ErrorsOf(ParseResults(parse, raw, params), |params|)
  }

  /** The parsed values of the declared arguments that parse, in order. */
  function Successes(parse: Parser, raw: map<Key, string>, params: seq<Param>): seq<Value> {
    OksOf(ParseResults(parse, raw, params), |params|)
  }

  /** The set of errors expected of a call is empty exactly when every
      declared argument parses, and then the parsed values are all the
      arguments in declared order. */
  lemma NoErrorsAllParsed(parse: Parser, raw: map<Key, string>, params: seq<Param>)
    ensures ExpectedErrors(parse, raw, params) == map[] <==>
            forall i :: 0 <= i < |params| ==> ParseArg(parse, raw, params, i).Ok?
    ensures ExpectedErrors(parse, raw, params) == map[] ==>
              |Successes(parse, raw, params)| == |params| &&
              forall i :: 0 <= i < |params| ==> ParseArg(parse, raw, params, i) == Ok(Successes(parse, raw, params)[i])
  {
    var errs := ExpectedErrors(parse, raw, params);
    var rs := ParseResults(parse, raw, params);
    if forall i :: 0 <= i < |params| ==> ParseArg(parse, raw, params, i).Ok? {
      assert errs.Keys == {};
      OksWhenNoErrors(rs, |params|);
    } else {
      var i :| 0 <= i < |params| && ParseArg(parse, raw, params, i).Err?;
      assert Arg(i) in errs;
    }
  }

  /** Argument `i` is the first of the declared ones that does not parse. */
  predicate FirstFailingArg(parse: Parser, raw: map<Key, string>, params: seq<Param>, i: nat) {
    i < |params| && ParseArg(parse, raw, params, i).Err? &&
    forall j :: 0 <= j < i ==> ParseArg(parse, raw, params, j).Ok?
  }

  /** `callFunction`'s loop in the current version: every declared argument is
      parsed, none is skipped after a failure; the failures are collected by
      index and the successes pushed in order. */
  method ValidateAll(parse: Parser, raw: map<Key, string>, params: seq<Param>)
    returns (args: seq<Value>, errs: map<Key, Error>)
    ensures errs == ExpectedErrors(parse, raw, params)
    ensures args == Successes(parse, raw, params)
  {
    ghost var rs := ParseResults(parse, raw, params);
    args, errs := [], map[];
    for i := 0 to |params|
      invariant errs == ErrorsOf(rs, i)
      invariant args == OksOf(rs, i)
    {
      var outcome := ParseArg(parse, raw, params, i);
      assert outcome == rs[i];
      ErrorsOfStep(rs, i);
      match outcome
      case Ok(v) =>
        args := args + [v];
      case Err(e) =>
        errs := errs[Arg(i) := e];
    }
  }

  /** Where parsing stopped, in the older version. */
  datatype FirstFailure = FirstFailure(index: nat, error: Error)

  /** `callFunction`'s `map` in the older version: the arguments are parsed in
      order and the first one that throws ends the call. */
  method ParseUntilFailure(parse: Parser, raw: map<Key, string>, params: seq<Param>)
    returns (r: Result<seq<Value>, FirstFailure>)
    ensures r.Ok? <==> forall i :: 0 <= i < |params| ==> ParseArg(parse, raw, params, i).Ok?
    ensures r.Ok? ==>
              |r.value| == |params| &&
              forall i :: 0 <= i < |params| ==> ParseArg(parse, raw, params, i) == Ok(r.value[i])
    ensures r.Err? ==>
              FirstFailingArg(parse, raw, params, r.error.index) &&
              ParseArg(parse, raw, params, r.error.index) == Err(r.error.error)
  {
    var vs: seq<Value> := [];
    var i := 0;
    while i < |params|
      invariant 0 <= i <= |params|
      invariant |vs| == i
      invariant forall j :: 0 <= j < i ==> ParseArg(parse, raw, params, j) == Ok(vs[j])
    {
      match ParseArg(parse, raw, params, i)
      case Err(e) =>
        return Err(FirstFailure(i, e));
      case Ok(v) =>
        vs := vs + [v];
        i := i + 1;
    }
    return Ok(vs);
  }
}

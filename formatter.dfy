/** `formatOutput`: the display text of a value a contract call returned. */
module Formatter {
  import opened Wrappers
  import opened Strings
  import opened Decimal
  import opened Values
  import opened ValueParser

  /** Arrays render as `[` + their elements rendered recursively and joined by
      `", "` + `]`; bigints as their exact decimal text; other objects through
      `JSON.stringify` (bigints as text), falling back to `toString()`; anything
      else is shown as JavaScript converts it to text. */
  function Format(lib: Lib, v: Value): string
    decreases v
  {
    match v
    case List(xs) =>
      "[" + Join(seq(|xs|, i requires 0 <= i < |xs| => Format(lib, xs[i])), ", ") + "]"
    case Int(n) => IntToString(n)
    case Obj(_) =>
      (match lib.stringify(v)
       case Some(t) => t
       case None => "[object Object]")
    case Bool(b) => if b then "true" else "false"
    case Text(s) => s
    case Num(d) => d
  }

  /** A bigint is shown exactly: its text parses back, as any integer type,
      to the same integer. */
  lemma FormatIntRoundTrip(lib: Lib, n: int, ty: string)
    requires IsIntegerType(ty) && !EndsWith(ty, "[]")
    ensures Parse(lib, Format(lib, Int(n)), ty) == Ok(Int(n))
  {
    IntegerRoundTrip(lib, n, ty);
  }

  /** Every piece after the first preceded by one space. */
  function Spaced(ts: seq<string>): (r: seq<string>)
    ensures |r| == |ts|
  {
    seq(|ts|, i requires 0 <= i < |ts| => if i == 0 then ts[i] else " " + ts[i])
  }

  lemma {:induction false} JoinSpaced(ts: seq<string>)
    ensures Join(ts, ", ") == Join(Spaced(ts), ",")
    decreases |ts|
  {
    if |ts| > 1 {
      var rest := ts[1..];
      JoinSpaced(rest);
      var sp, sr := Spaced(ts), Spaced(rest);
      assert Join(ts, ", ") == ts[0] + ", " + Join(rest, ", ");
      assert Join(sp, ",") == sp[0] + "," + Join(sp[1..], ",");
      if |rest| == 1 {
        assert sp[1..] == [" " + rest[0]];
      } else {
        assert sp[1..] == [" " + rest[0]] + sr[1..];
        assert Join(sp[1..], ",") == " " + rest[0] + "," + Join(sr[1..], ",");
        assert Join(sr, ",") == rest[0] + "," + Join(sr[1..], ",");
      }
    }
  }

  /** The text of a displayed non-empty integer array, without its brackets,
      is accepted back as input for that array type and gives the same
      integers. */
  lemma DisplayedIntArrayRoundTrip(lib: Lib, ns: seq<int>, elem: string)
    requires |ns| > 0
    requires IsIntegerType(elem) && !EndsWith(elem, "[]") && !Contains(elem, "tuple")
    ensures var t := Format(lib, List(IntValues(ns)));
            |t| >= 2 && t[0] == '[' && t[|t| - 1] == ']' &&
            Parse(lib, t[1..|t| - 1], elem + "[]") == Ok(List(IntValues(ns)))
  {
    var vs := IntValues(ns);
    var texts := IntTexts(ns);
    var parts := seq(|vs|, i requires 0 <= i < |vs| => Format(lib, vs[i]));
    assert parts == texts;
    var inner := Join(texts, ", ");
    var t := Format(lib, List(vs));
    assert t == "[" + inner + "]";
    assert t[1..|t| - 1] == inner;
    JoinSpaced(texts);
    var pieces := Spaced(texts);
    var ty := elem + "[]";
    assert EndsWith(ty, "[]") && ElementType(ty) == elem;
    forall i | 0 <= i < |pieces|
      ensures ',' !in pieces[i] && Parse(lib, Trim(pieces[i]), elem) == Ok(vs[i])
    {
      IntTextIsPlain(ns[i]);
      IntegerRoundTrip(lib, ns[i], elem);
      if i > 0 {
        assert TrimStart(pieces[i]) == TrimStart(texts[i]);
        assert Trim(pieces[i]) == Trim(texts[i]);
      }
    }
    SplitJoin(pieces, ',');
    ParseArray(lib, inner, ty);
    assert Parse(lib, inner, ty).value.items == vs;
  }
}

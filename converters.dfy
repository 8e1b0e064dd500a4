/** The scalar converters of the caster (`truthy`, `num`, `hex_int`, `vector`, `point`,
    `transform`, `node`, `intlist`, `pointlist`, `nodelist`, `descender_val`,
    `version_minor`), each a function from the raw text to a typed value or `None`. */
module Converters {
  import opened Wrappers
  import opened Values
  import opened Numerals
  import opened Patterns

  /** `int(s)` as a value. */
  function IntOf(s: string): (r: Option<Value>)
    ensures r.Some? <==> ParseInt(s).Some?
    ensures r.Some? ==> r.value == Int(ParseInt(s).value)
  {
    var n :- ParseInt(s);
    Some(Int(n))
  }

  /** `bool(int(s))`. */
  function Truthy(s: string): (r: Option<Value>)
    ensures r.Some? <==> ParseInt(s).Some?
    ensures r.Some? ==> r.value == Bool(ParseInt(s).value != 0)
  {
    var n :- ParseInt(s);
    Some(Bool(n != 0))
  }

  /** `num(s)`: the number `float(s)` reads, as an int when it is integral. */
  function Num(s: string): (r: Option<Value>)
    ensures r.Some? <==> ParseDecimal(s).Some?
    ensures r.Some? ==> IsNumber(r.value) && NumberValue(r.value) == ParseDecimal(s).value
  {
    var x :- ParseDecimal(s);
    Some(if x.Floor as real == x then Int(x.Floor) else Real(x))
  }

  /** `int(s, 16)`. */
  function HexInt(s: string): (r: Option<Value>)
    ensures r.Some? <==> ParseHex(s).Some?
    ensures r.Some? ==> r.value == Int(ParseHex(s).value)
  {
    var n :- ParseHex(s);
    Some(Int(n))
  }

  /** `num` applied to every captured token, in order. */
  function NumAll(toks: seq<string>): (r: Option<seq<Value>>)
    ensures r.Some? <==> forall i :: 0 <= i < |toks| ==> Num(toks[i]).Some?
    ensures r.Some? ==> |r.value| == |toks|
    ensures r.Some? ==> forall i :: 0 <= i < |toks| ==> Num(toks[i]) == Some(r.value[i])
  {
    if toks == [] then Some([])
    else
      var head :- Num(toks[0]);
      var tail :- NumAll(toks[1..]);
      Some([head] + tail)
  }

  /** `vector(s, d)`: the `d` numbers of a `{n1, n2, ...}` prefix of `s`. */
  function Vector(s: string, d: nat): (r: Option<Value>)
    ensures r.Some? ==> r.value.List? && |r.value.items| == d
    ensures r.Some? ==> forall i :: 0 <= i < d ==> IsNumber(r.value.items[i])
  {
    var toks :- MatchVector(s, d);
    var nums :- NumAll(toks);
    Some(List(nums))
  }

  /** `point(s)`: a vector of two numbers. */
  function Point(s: string): (r: Option<Value>)
    ensures r.Some? ==> IsPointValue(r.value)
  {
    Vector(s, 2)
  }

  /** The shape of a cast point: a list of two numbers. */
  predicate IsPointValue(v: Value) {
    v.List? && |v.items| == 2 && IsNumber(v.items[0]) && IsNumber(v.items[1])
  }

  /** `transform(s)`: a vector of six numbers. */
  function Transform(s: string): (r: Option<Value>)
    ensures r.Some? ==> r.value.List? && |r.value.items| == 6
    ensures r.Some? ==> forall i :: 0 <= i < 6 ==> IsNumber(r.value.items[i])
  {
    Vector(s, 6)
  }

  /** The shape of a cast node: two numbers, a segment type and the smooth flag. */
  predicate IsNodeValue(v: Value) {
    && v.List? && |v.items| == 4
    && IsNumber(v.items[0]) && IsNumber(v.items[1])
    && v.items[2].Str? && v.items[2].s in NodeTypes
    && (v.items[3] == Str("SMOOTH") || v.items[3] == Null)
  }

  /** `node(s)`: `[x, y, type, "SMOOTH" or None]` of an `X Y TYPE [SMOOTH]` prefix of `s`. */
  function Node(s: string): (r: Option<Value>)
    ensures r.Some? ==> IsNodeValue(r.value)
  {
    match MatchNode(s)
    case None => None
    case Some(m) => NodeOf(m)
  }

  /** The value built from the groups of a node match. */
  function NodeOf(m: NodeMatch): (r: Option<Value>)
    requires m.kind in NodeTypes
    ensures r.Some? <==> Num(m.x).Some? && Num(m.y).Some?
    ensures r.Some? ==> r.value == List([Num(m.x).value, Num(m.y).value, Str(m.kind), if m.smooth then Str("SMOOTH") else Null])
    ensures r.Some? ==> IsNodeValue(r.value)
  {
    var x := Num(m.x);
    var y := Num(m.y);
    if x.None? || y.None? then None
    else
      var flag := if m.smooth then Str("SMOOTH") else Null;
      NodeValueShape(x.value, y.value, m.kind, flag);
      Some(List([x.value, y.value, Str(m.kind), flag]))
  }

  lemma NodeValueShape(x: Value, y: Value, kind: string, flag: Value)
    requires IsNumber(x) && IsNumber(y) && kind in NodeTypes
    requires flag == Str("SMOOTH") || flag == Null
    ensures IsNodeValue(List([x, y, Str(kind), flag]))
  {
  }

  /** `list(map(f, items))`: `f` applied to every element, in order; fails when any
      element is not a string or `f` fails on it. */
  function Elementwise(f: string -> Option<Value>, items: seq<Value>): (r: Option<seq<Value>>)
    ensures r.Some? <==> forall i :: 0 <= i < |items| ==> items[i].Str? && f(items[i].s).Some?
    ensures r.Some? ==> |r.value| == |items|
    ensures r.Some? ==> forall i :: 0 <= i < |items| ==> Some(r.value[i]) == f(items[i].s)
  {
    if items == [] then Some([])
    else if !items[0].Str? then None
    else
      var head :- f(items[0].s);
      var tail :- Elementwise(f, items[1..]);
      Some([head] + tail)
  }

  /** `intlist`: `int` of every element. */
  function IntList(items: seq<Value>): (r: Option<seq<Value>>)
    ensures r.Some? <==> forall i :: 0 <= i < |items| ==> items[i].Str? && ParseInt(items[i].s).Some?
    ensures r.Some? ==> |r.value| == |items|
    ensures r.Some? ==> forall i :: 0 <= i < |items| ==> r.value[i] == Int(ParseInt(items[i].s).value)
  {
    Elementwise(IntOf, items)
  }

  /** `pointlist`: `point` of every element. */
  function PointList(items: seq<Value>): (r: Option<seq<Value>>)
    ensures r.Some? <==> forall i :: 0 <= i < |items| ==> items[i].Str? && Point(items[i].s).Some?
    ensures r.Some? ==> |r.value| == |items| && forall i :: 0 <= i < |items| ==> IsPointValue(r.value[i])
  {
    Elementwise(Point, items)
  }

  /** `nodelist`: `node` of every element. */
  function NodeList(items: seq<Value>): (r: Option<seq<Value>>)
    ensures r.Some? <==> forall i :: 0 <= i < |items| ==> items[i].Str? && Node(items[i].s).Some?
    ensures r.Some? ==> |r.value| == |items| && forall i :: 0 <= i < |items| ==> IsNodeValue(r.value[i])
  {
    Elementwise(Node, items)
  }

  /** `descender_val(s)`: `int(s)`, which must be negative. */
  function DescenderVal(s: string): (r: Option<Value>)
    ensures r.Some? <==> ParseInt(s).Some? && ParseInt(s).value < 0
    ensures r.Some? ==> r.value == Int(ParseInt(s).value)
  {
    var n :- ParseInt(s);
    if n < 0 then Some(Int(n)) else None
  }

  /** `version_minor(s)`: `int(s)`, which must lie in 0..999. */
  function VersionMinor(s: string): (r: Option<Value>)
    ensures r.Some? <==> ParseInt(s).Some? && 0 <= ParseInt(s).value <= 999
    ensures r.Some? ==> r.value == Int(ParseInt(s).value)
  {
    var n :- ParseInt(s);
    if 0 <= n <= 999 then Some(Int(n)) else None
  }

  lemma TruthyOfInt(n: int)
    ensures Truthy(FormatInt(n)) == Some(Bool(n != 0))
  {
    IntRoundTrip(n);
  }

  /** An integer written in decimal comes back from `num` as that int. */
  lemma NumOfInt(n: int)
    ensures Num(FormatInt(n)) == Some(Int(n))
  {
    DecimalOfInt(n);
    assert (n as real).Floor == n;
  }

  /** Decimal text `W.F` comes back from `num` as the int `W` when its fraction digits
      are all zero, and otherwise as the float it writes (`PointValueSum` gives that
      float as `W + F / 10^|F|`). */
  lemma NumOfText(whole: string, frac: string)
    requires AllDigits(whole, 10) && AllDigits(frac, 10) && |whole| + |frac| > 0
    ensures Num(whole + "." + frac) == Some(
      if DigitsValue(frac, 10) == 0 then Int(DigitsValue(whole, 10)) else Real(PointValue(whole, frac)))
  {
    DecimalOfText(whole, frac);
    PointFloor(whole, frac);
  }

  /** The whole part is the floor of the written number, which is integral exactly when
      the fraction digits are all zero. */
  lemma PointFloor(whole: string, frac: string)
    requires AllDigits(whole, 10) && AllDigits(frac, 10)
    ensures PointValue(whole, frac).Floor == DigitsValue(whole, 10)
    ensures PointValue(whole, frac) == DigitsValue(whole, 10) as real <==> DigitsValue(frac, 10) == 0
  {
    PointValueSum(whole, frac);
    DigitsBound(frac);
    FloorOfFraction(DigitsValue(whole, 10), DigitsValue(frac, 10), |frac|);
  }

  /** A whole number plus a proper fraction has that whole number as its floor. */
  lemma FloorOfFraction(w: nat, f: nat, k: nat)
    requires f < Pow10(k)
    ensures FractionalValue(w, f, k).Floor == w
    ensures f > 0 <==> FractionalValue(w, f, k) != w as real
  {
    ProperFraction(f as real, Pow10(k) as real);
  }

  lemma ProperFraction(f: real, p: real)
    requires 0.0 <= f < p
    ensures 0.0 <= f / p < 1.0
    ensures f > 0.0 ==> f / p > 0.0
  {
    var q := f / p;
    assert (1.0 - q) * p == p - f;
  }

  lemma HexIntOf(n: nat)
    ensures HexInt(ToDigits(n, 16)) == Some(Int(n))
  {
    HexRoundTrip(n);
  }

  lemma DescenderOfInt(n: int)
    ensures DescenderVal(FormatInt(n)) == if n < 0 then Some(Int(n)) else None
  {
    IntRoundTrip(n);
  }

  lemma VersionMinorOfInt(n: int)
    ensures VersionMinor(FormatInt(n)) == if 0 <= n <= 999 then Some(Int(n)) else None
  {
    IntRoundTrip(n);
  }

  /** A rendered vector of the asked arity reads back as its tokens' numbers. */
  lemma VectorOf(toks: seq<string>, rest: string)
    requires AllTokens(toks)
    ensures Vector(RenderVector(toks) + rest, |toks|) ==
      if NumAll(toks).Some? then Some(List(NumAll(toks).value)) else None
  {
    MatchVectorComplete(toks, rest);
  }

  /** A rendered vector read with another arity fails. */
  lemma VectorWrongArity(toks: seq<string>, rest: string, d: nat)
    requires AllTokens(toks) && d != |toks|
    ensures Vector(RenderVector(toks) + rest, d).None?
  {
    MatchVectorWrongArity(toks, rest, d);
  }

  /** A rendered node line reads back as its groups. */
  lemma NodeOfRendered(m: NodeMatch, rest: string)
    requires ValidNodeMatch(m)
    requires m.smooth || !(" SMOOTH" <= rest)
    ensures Node(RenderNode(m) + rest) == NodeOf(m)
  {
    MatchNodeComplete(m, rest);
  }
}

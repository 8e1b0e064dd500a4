/** Integer and decimal literals as Python's `int(s)`, `int(s, 16)` and `float(s)`
    read them, restricted to the forms a Glyphs file uses (no whitespace, no
    underscores, no `inf`/`nan`), with exact values. */
module Numerals {
  import opened Wrappers

  predicate IsDigit(c: char) {
    '0' <= c <= '9'
  }

  /** The value of a hexadecimal digit of either case; 16 for any other character. */
  function DigitOf(c: char): (d: nat)
    ensures d <= 16
    ensures d < 10 <==> IsDigit(c)
  {
    if '0' <= c <= '9' then c as int - '0' as int
    else if 'a' <= c <= 'f' then c as int - 'a' as int + 10
    else if 'A' <= c <= 'F' then c as int - 'A' as int + 10
    else 16
  }

  /** Every character of `s` is a digit in `base`. */
  predicate AllDigits(s: string, base: nat) {
    forall i :: 0 <= i < |s| ==> DigitOf(s[i]) < base
  }

  /** The number a string of digits denotes in `base`, most significant digit first. */
  function DigitsValue(s: string, base: nat): nat
    requires AllDigits(s, base)
  {
    if s == [] then 0
    else
      var prefix := s[..|s| - 1];
      assert AllDigits(prefix, base) by {
        assert forall i :: 0 <= i < |prefix| ==> prefix[i] == s[i];
      }
      DigitsValue(prefix, base) * base + DigitOf(s[|s| - 1])
  }

  /** Appending one digit multiplies the value by the base and adds the digit. */
  lemma DigitsSnoc(s: string, c: char, base: nat)
    requires AllDigits(s, base) && DigitOf(c) < base
    ensures AllDigits(s + [c], base)
    ensures DigitsValue(s + [c], base) == DigitsValue(s, base) * base + DigitOf(c)
  {
    assert (s + [c])[..|s|] == s;
  }

  /** The lower-case digit character for `d`. */
  function DigitChar(d: nat): (c: char)
    requires d < 16
    ensures DigitOf(c) == d
  {
    if d < 10 then ('0' as int + d) as char else ('a' as int + d - 10) as char
  }

  /** The shortest digit string of `n` in `base`. */
  function ToDigits(n: nat, base: nat): (s: string)
    requires 2 <= base <= 16
    ensures |s| > 0 && AllDigits(s, base)
    decreases n
  {
    if n < base then [DigitChar(n)]
    else
      DivisionFacts(n, base);
      var prefix := ToDigits(n / base, base);
      var s := prefix + [DigitChar(n % base)];
      assert forall i :: 0 <= i < |prefix| ==> s[i] == prefix[i];
      s
  }

  lemma DivisionFacts(n: nat, b: nat)
    requires 2 <= b <= n
    ensures n == (n / b) * b + n % b
    ensures n / b < n
  {
  }

  lemma {:induction false} ToDigitsValue(n: nat, base: nat)
    requires 2 <= base <= 16
    ensures DigitsValue(ToDigits(n, base), base) == n
    decreases n
  {
    if n >= base {
      var q, r := n / base, n % base;
      DivisionFacts(n, base);
      var s := ToDigits(n, base);
      var prefix := ToDigits(q, base);
      assert s == prefix + [DigitChar(r)];
      assert s[..|s| - 1] == prefix;
      ToDigitsValue(q, base);
      calc {
        DigitsValue(s, base);
        DigitsValue(prefix, base) * base + DigitOf(DigitChar(r));
        q * base + r;
        n;
      }
    }
  }

  /** Splits off an optional leading sign: whether it was `-`, and what follows it. */
  function SplitSign(s: string): (bool, string) {
    if |s| > 0 && (s[0] == '-' || s[0] == '+') then (s[0] == '-', s[1..]) else (false, s)
  }

  function Signed(negative: bool, n: nat): int {
    if negative then -(n as int) else n
  }

  /** `int(s)`: an optional sign followed by one or more decimal digits. */
  function ParseInt(s: string): (r: Option<int>)
    ensures r.Some? ==> |s| > 0 && (IsDigit(s[0]) || s[0] == '-' || s[0] == '+')
    ensures r.Some? ==> forall i :: 0 < i < |s| ==> IsDigit(s[i])
    ensures r.Some? && r.value < 0 ==> s[0] == '-'
  {
    var (negative, body) := SplitSign(s);
    assert |s| > 0 && !IsDigit(s[0]) && s[0] != '-' && s[0] != '+' ==> !AllDigits(s, 10);
    if body != [] && AllDigits(body, 10) then Some(Signed(negative, DigitsValue(body, 10))) else None
  }

  /** Any run of decimal digits, leading zeros included, reads as the number it spells,
      with or without a sign in front. */
  lemma ParseIntOfDigits(d: string)
    requires |d| > 0 && AllDigits(d, 10)
    ensures ParseInt(d) == Some(DigitsValue(d, 10) as int)
    ensures ParseInt("-" + d) == Some(-(DigitsValue(d, 10) as int))
    ensures ParseInt("+" + d) == Some(DigitsValue(d, 10) as int)
  {
    UnsignedDigits(d);
    NegatedDigits(d);
    PlusDigits(d);
  }

  lemma UnsignedDigits(d: string)
    requires |d| > 0 && AllDigits(d, 10)
    ensures ParseInt(d) == Some(DigitsValue(d, 10) as int)
  {
    SignOfDigits(d);
    ParseIntOfSplit(d, d, DigitsValue(d, 10));
  }

  lemma NegatedDigits(d: string)
    requires |d| > 0 && AllDigits(d, 10)
    ensures ParseInt("-" + d) == Some(-(DigitsValue(d, 10) as int))
  {
    SignOfDigits(d);
    ParseIntOfSplit("-" + d, d, DigitsValue(d, 10));
  }

  lemma PlusDigits(d: string)
    requires |d| > 0 && AllDigits(d, 10)
    ensures ParseInt("+" + d) == Some(DigitsValue(d, 10) as int)
  {
    SignOfDigits(d);
    ParseIntOfSplit("+" + d, d, DigitsValue(d, 10));
  }

  /** Text whose part after the sign is the digit run `d` of value `n` reads as `n` with
      that sign. */
  lemma ParseIntOfSplit(s: string, d: string, n: nat)
    requires |d| > 0 && AllDigits(d, 10) && SplitSign(s).1 == d && n == DigitsValue(d, 10)
    ensures ParseInt(s) == Some(Signed(SplitSign(s).0, n))
  {
  }

  /** The text `int` accepts: an optional sign, then one or more decimal digits. */
  lemma ParseIntAccepts(s: string)
    ensures ParseInt(s).Some? <==>
      && |s| > 0 && (IsDigit(s[0]) || (|s| > 1 && (s[0] == '-' || s[0] == '+')))
      && forall i :: 0 < i < |s| ==> IsDigit(s[i])
  {
    if |s| > 0 && (IsDigit(s[0]) || (|s| > 1 && (s[0] == '-' || s[0] == '+'))) && forall i :: 0 < i < |s| ==> IsDigit(s[i]) {
      var body := SplitSign(s).1;
      assert forall i :: 0 <= i < |body| ==> IsDigit(body[i]) by {
        if IsDigit(s[0]) {
          assert body == s;
        } else {
          assert forall i :: 0 <= i < |body| ==> body[i] == s[i + 1];
        }
      }
    }
  }

  /** The sign split of a digit run, and of that run behind either sign. */
  lemma SignOfDigits(d: string)
    requires |d| > 0 && AllDigits(d, 10)
    ensures SplitSign(d) == (false, d)
    ensures SplitSign("-" + d) == (true, d) && SplitSign("+" + d) == (false, d)
  {
    assert DigitOf(d[0]) < 10;
    assert ("-" + d)[1..] == d && ("+" + d)[1..] == d;
  }

  /** `int(s, 16)`: an optional sign, an optional `0x`/`0X` prefix, one or more hex digits. */
  function ParseHex(s: string): (r: Option<int>)
    ensures r.Some? ==> |s| > 0
    ensures r.Some? && r.value < 0 ==> s[0] == '-'
  {
    var (negative, body) := SplitSign(s);
    var digits := if |body| >= 2 && body[0] == '0' && (body[1] == 'x' || body[1] == 'X') then body[2..] else body;
    if digits != [] && AllDigits(digits, 16) then Some(Signed(negative, DigitsValue(digits, 16))) else None
  }

  /** Any run of hexadecimal digits of either case, leading zeros included, with or
      without a `0x` prefix, reads as the number it spells. */
  lemma HexOfDigits(d: string)
    requires |d| > 0 && AllDigits(d, 16)
    ensures ParseHex(d) == Some(DigitsValue(d, 16) as int)
    ensures ParseHex("0x" + d) == Some(DigitsValue(d, 16) as int)
  {
    assert DigitOf(d[0]) < 16;
    assert SplitSign(d) == (false, d);
    assert |d| >= 2 ==> DigitOf(d[1]) < 16 && d[1] != 'x' && d[1] != 'X';
    var p := "0x" + d;
    assert p[0] == '0' && p[1] == 'x' && p[2..] == d;
    assert SplitSign(p) == (false, p);
  }

  /** From position `k` to the end, `s` is one or more hexadecimal digits. */
  predicate HexDigitsFrom(s: string, k: nat) {
    k < |s| && forall i :: k <= i < |s| ==> DigitOf(s[i]) < 16
  }

  /** The text `int(s, 16)` accepts: an optional sign, an optional `0x` or `0X`, then one
      or more hexadecimal digits of either case. */
  lemma ParseHexAccepts(s: string)
    ensures ParseHex(s).Some? <==>
      var k := if |s| > 0 && (s[0] == '-' || s[0] == '+') then 1 else 0;
      || HexDigitsFrom(s, k)
      || (k + 2 < |s| && s[k] == '0' && (s[k + 1] == 'x' || s[k + 1] == 'X') && HexDigitsFrom(s, k + 2))
  {
    var k := if |s| > 0 && (s[0] == '-' || s[0] == '+') then 1 else 0;
    var body := SplitSign(s).1;
    assert body == s[k..];
    if |body| >= 2 && body[0] == '0' && (body[1] == 'x' || body[1] == 'X') {
      assert DigitOf(s[k + 1]) == 16;
      assert forall i :: k + 2 <= i < |s| ==> s[i] == body[2..][i - k - 2];
    } else {
      assert forall i :: k <= i < |s| ==> s[i] == body[i - k];
    }
  }

  /** The decimal text of an integer, as Glyphs writes it. */
  function FormatInt(n: int): (s: string)
    ensures |s| > 0
  {
    if n < 0 then "-" + ToDigits(-n, 10) else ToDigits(n, 10)
  }

  lemma IntRoundTrip(n: int)
    ensures ParseInt(FormatInt(n)) == Some(n)
  {
    var m: nat := if n < 0 then -n else n;
    ToDigitsValue(m, 10);
    var d := ToDigits(m, 10);
    assert DigitOf(d[0]) < 10;
    if n < 0 {
      assert FormatInt(n)[1..] == d;
    }
  }

  lemma HexRoundTrip(n: nat)
    ensures ParseHex(ToDigits(n, 16)) == Some(n)
  {
    var d := ToDigits(n, 16);
    ToDigitsValue(n, 16);
    assert DigitOf(d[0]) < 16;
    assert SplitSign(d) == (false, d);
    assert |d| >= 2 ==> DigitOf(d[1]) < 16 && d[1] != 'x' && d[1] != 'X';
  }

  function Pow10(k: nat): (p: nat)
    ensures p >= 1
  {
    if k == 0 then 1 else 10 * Pow10(k - 1)
  }

  /** `n` in exactly `width` decimal digits, with leading zeros. */
  function Pad(n: nat, width: nat): (s: string)
    ensures |s| == width && AllDigits(s, 10)
  {
    if width == 0 then [] else Pad(n / 10, width - 1) + [DigitChar(n % 10)]
  }

  lemma {:induction false} PadValue(n: nat, width: nat)
    requires n < Pow10(width)
    ensures DigitsValue(Pad(n, width), 10) == n
  {
    if width > 0 {
      var s := Pad(n, width);
      var q, d := n / 10, n % 10;
      assert n == q * 10 + d;
      assert q < Pow10(width - 1) by {
        assert Pow10(width) == 10 * Pow10(width - 1);
      }
      assert s[..|s| - 1] == Pad(q, width - 1);
      assert DigitOf(s[|s| - 1]) == d;
      PadValue(q, width - 1);
    }
  }

  /** Digits read back and padded to their own width give the same digits. */
  lemma {:induction false} PadOfDigits(f: string)
    requires AllDigits(f, 10)
    ensures Pad(DigitsValue(f, 10), |f|) == f
  {
    if f != [] {
      var prefix, last := f[..|f| - 1], f[|f| - 1];
      assert AllDigits(prefix, 10);
      var n := DigitsValue(f, 10);
      assert n / 10 == DigitsValue(prefix, 10) && n % 10 == DigitOf(last);
      PadOfDigits(prefix);
      assert DigitChar(DigitOf(last)) == last;
      assert f == prefix + [last];
    }
  }

  /** The value of two digit runs written one after the other. */
  lemma {:induction false} DigitsAppend(a: string, b: string)
    requires AllDigits(a, 10) && AllDigits(b, 10)
    ensures AllDigits(a + b, 10)
    ensures DigitsValue(a + b, 10) == DigitsValue(a, 10) * Pow10(|b|) + DigitsValue(b, 10)
    decreases |b|
  {
    assert forall i :: 0 <= i < |a + b| ==> (a + b)[i] == if i < |a| then a[i] else b[i - |a|];
    if b == [] {
      assert a + b == a;
    } else {
      var init, last := b[..|b| - 1], b[|b| - 1];
      assert AllDigits(init, 10);
      assert (a + b)[..|a + b| - 1] == a + init;
      DigitsAppend(a, init);
      AppendStep(DigitsValue(a, 10), DigitsValue(init, 10), Pow10(|init|), DigitOf(last));
    }
  }

  lemma AppendStep(x: nat, y: nat, p: nat, c: nat)
    ensures (x * p + y) * 10 + c == x * (10 * p) + (y * 10 + c)
  {
  }

  /** `k` digits denote less than `10^k`. */
  lemma {:induction false} DigitsBound(d: string)
    requires AllDigits(d, 10)
    ensures DigitsValue(d, 10) < Pow10(|d|)
  {
    if d != [] {
      var init := d[..|d| - 1];
      assert AllDigits(init, 10);
      DigitsBound(init);
    }
  }

  /** The exact value of `m * 10^k`. */
  function Scale(m: nat, k: int): real {
    if k >= 0 then (m * Pow10(k)) as real else m as real / Pow10(-k) as real
  }

  /** Index of the first `c` in `s`, or `|s|` when there is none. */
  function Find(s: string, c: char): (i: nat)
    ensures i <= |s|
    ensures forall j :: 0 <= j < i ==> s[j] != c
    ensures i < |s| ==> s[i] == c
  {
    if s == [] || s[0] == c then 0 else 1 + Find(s[1..], c)
  }

  /** Index of the first exponent marker `e` or `E`, or `|s|`. */
  function FindExponent(s: string): (i: nat)
    ensures i <= |s|
    ensures forall j :: 0 <= j < i ==> s[j] != 'e' && s[j] != 'E'
    ensures i < |s| ==> s[i] == 'e' || s[i] == 'E'
  {
    var e, upper := Find(s, 'e'), Find(s, 'E');
    if e <= upper then e else upper
  }

  /** `float(s)` with an exact result: an optional sign, then digits with an optional
      fraction (`12`, `12.`, `12.5`, `.5`), then an optional exponent (`e-3`, `E+2`). */
  function ParseDecimal(s: string): (r: Option<real>)
    ensures r.Some? ==> |s| > 0
    ensures r.Some? && r.value < 0.0 ==> s[0] == '-'
  {
    var (negative, t) := SplitSign(s);
    var magnitude :- UnsignedDecimal(t);
    Some(if negative then -magnitude else magnitude)
  }

  /** The value of unsigned decimal text: a mantissa and an optional exponent. */
  function UnsignedDecimal(t: string): (r: Option<real>)
    ensures r.Some? ==> |t| > 0
    ensures r.Some? ==> r.value >= 0.0
  {
    var e := FindExponent(t);
    var exponent :- if e < |t| then ParseInt(t[e + 1..]) else Some(0);
    Magnitude(t[..e], exponent)
  }

  /** The unsigned value of a mantissa (digits around at most one point) times ten to `exponent`. */
  function Magnitude(mantissa: string, exponent: int): (r: Option<real>)
    ensures r.Some? ==> |mantissa| > 0
    ensures r.Some? ==> r.value >= 0.0
  {
    var dot := Find(mantissa, '.');
    var whole := mantissa[..dot];
    var fraction := if dot < |mantissa| then mantissa[dot + 1..] else [];
    if |whole| + |fraction| > 0 && AllDigits(whole, 10) && AllDigits(fraction, 10) then
      Some(Scale(DigitsValue(whole + fraction, 10), exponent - |fraction|))
    else None
  }

  /** `m` is digits, a point at `i`, then digits, with at least one digit in all. */
  predicate PointAt(m: string, i: int) {
    0 <= i < |m| && m[i] == '.' && 1 < |m| && AllDigits(m[..i], 10) && AllDigits(m[i + 1..], 10)
  }

  /** A mantissa `float` accepts: digits with at most one point and at least one digit
      (`12`, `12.`, `12.5`, `.5`). */
  predicate MantissaText(m: string) {
    (|m| > 0 && AllDigits(m, 10)) || exists i :: 0 <= i < |m| && PointAt(m, i)
  }

  /** `t` is a mantissa, an exponent marker at `i`, then text `int` reads. */
  predicate ExponentAt(t: string, i: int) {
    0 <= i < |t| && (t[i] == 'e' || t[i] == 'E') && MantissaText(t[..i]) && ParseInt(t[i + 1..]).Some?
  }

  /** The text `float` accepts: an optional sign, a mantissa, then optionally `e` or `E`
      followed by text `int` reads. */
  predicate DecimalText(s: string) {
    var t := SplitSign(s).1;
    MantissaText(t) || exists i :: 0 <= i < |t| && ExponentAt(t, i)
  }

  /** `float(s)` succeeds exactly on the text its grammar describes. */
  lemma DecimalAccepts(s: string)
    ensures ParseDecimal(s).Some? <==> DecimalText(s)
  {
    var t := SplitSign(s).1;
    assert ParseDecimal(s).Some? <==> UnsignedDecimal(t).Some?;
    if UnsignedDecimal(t).Some? {
      UnsignedSound(t);
    }
    if MantissaText(t) || exists i :: 0 <= i < |t| && ExponentAt(t, i) {
      UnsignedComplete(t);
    }
  }

  lemma UnsignedSound(t: string)
    requires UnsignedDecimal(t).Some?
    ensures MantissaText(t) || exists i :: 0 <= i < |t| && ExponentAt(t, i)
  {
    var e := FindExponent(t);
    if e == |t| {
      assert t[..e] == t;
      MantissaAccepts(t, 0);
    } else {
      MantissaAccepts(t[..e], ParseInt(t[e + 1..]).value);
      assert ExponentAt(t, e);
    }
  }

  lemma UnsignedComplete(t: string)
    requires MantissaText(t) || exists i :: 0 <= i < |t| && ExponentAt(t, i)
    ensures UnsignedDecimal(t).Some?
  {
    if MantissaText(t) {
      MantissaNoMarker(t);
      assert t[..|t|] == t;
      MantissaAccepts(t, 0);
    } else {
      var i :| 0 <= i < |t| && ExponentAt(t, i);
      MarkerFound(t, i);
      MantissaAccepts(t[..i], ParseInt(t[i + 1..]).value);
    }
  }

  /** The marker of `ExponentAt(t, i)` is the first exponent marker of `t`. */
  lemma MarkerFound(t: string, i: int)
    requires ExponentAt(t, i)
    ensures FindExponent(t) == i
  {
    MantissaNoMarker(t[..i]);
    assert forall j :: 0 <= j < i ==> t[j] == t[..i][j];
  }

  /** A mantissa's magnitude exists exactly when it is mantissa text, whatever the exponent. */
  lemma MantissaAccepts(m: string, k: int)
    ensures Magnitude(m, k).Some? <==> MantissaText(m)
  {
    var dot := Find(m, '.');
    if Magnitude(m, k).Some? {
      if dot == |m| {
        assert m[..dot] == m;
      } else {
        assert PointAt(m, dot);
      }
    }
    if MantissaText(m) {
      if |m| > 0 && AllDigits(m, 10) {
        DigitsNoPoint(m);
        assert m[..|m|] == m;
      } else {
        var i :| PointAt(m, i);
        PointFound(m, i);
      }
    }
  }

  /** Mantissa text holds no exponent marker. */
  lemma MantissaNoMarker(m: string)
    requires MantissaText(m)
    ensures FindExponent(m) == |m|
  {
    if |m| > 0 && AllDigits(m, 10) {
      DigitsNoPoint(m);
    } else {
      var i :| PointAt(m, i);
      PointFound(m, i);
    }
  }

  /** A digit run holds neither a point nor an exponent marker. */
  lemma DigitsNoPoint(m: string)
    requires AllDigits(m, 10)
    ensures Find(m, '.') == |m|
    ensures forall j :: 0 <= j < |m| ==> m[j] != 'e' && m[j] != 'E'
  {
    assert DigitOf('.') == 16 && DigitOf('e') == 14 && DigitOf('E') == 14;
  }

  /** The point of `PointAt(m, i)` is the first point of `m`, and `m` has no exponent marker. */
  lemma PointFound(m: string, i: int)
    requires PointAt(m, i)
    ensures Find(m, '.') == i
    ensures forall j :: 0 <= j < |m| ==> m[j] != 'e' && m[j] != 'E'
  {
    assert DigitOf('.') == 16 && DigitOf('e') == 14 && DigitOf('E') == 14;
    assert forall j :: 0 <= j < i ==> m[j] == m[..i][j];
    assert forall j :: i < j < |m| ==> m[j] == m[i + 1..][j - i - 1];
  }

  /** A string of decimal digits has no sign, no point and no exponent marker. */
  lemma PlainDigits(d: string)
    requires |d| > 0 && AllDigits(d, 10)
    ensures SplitSign(d) == (false, d)
    ensures FindExponent(d) == |d| && Find(d, '.') == |d|
  {
    assert DigitOf(d[0]) < 10;
  }

  /** A signed string of plain digits reads as the integer it spells. */
  lemma DecimalOfDigits(s: string, d: string)
    requires |d| > 0 && AllDigits(d, 10)
    requires SplitSign(s).1 == d
    ensures ParseDecimal(s) == Some(if SplitSign(s).0 then -(DigitsValue(d, 10) as real) else DigitsValue(d, 10) as real)
  {
    PlainDigits(d);
    assert d[..|d|] == d;
    assert d + [] == d;
    assert Scale(DigitsValue(d, 10), 0) == DigitsValue(d, 10) as real;
  }

  /** An unsigned decimal with a point, `W.F`, `W.` or `.F`, reads as `W + F / 10^|F|`. */
  lemma DecimalOfText(whole: string, frac: string)
    requires AllDigits(whole, 10) && AllDigits(frac, 10) && |whole| + |frac| > 0
    ensures ParseDecimal(whole + "." + frac) == Some(PointValue(whole, frac))
  {
    DotText(whole, frac);
    DecimalNoExponent(whole + "." + frac, PointValue(whole, frac));
  }

  /** A minus sign in front of unsigned text negates what the text reads as. */
  lemma DecimalNegated(t: string)
    requires SplitSign(t) == (false, t)
    ensures ParseDecimal("-" + t) == if ParseDecimal(t).Some? then Some(-ParseDecimal(t).value) else None
  {
    assert ("-" + t)[1..] == t;
    assert SplitSign("-" + t) == (true, t);
  }

  /** Digits, a point and digits: no exponent marker, and the magnitude of the two runs. */
  lemma DotText(whole: string, frac: string)
    requires AllDigits(whole, 10) && AllDigits(frac, 10) && |whole| + |frac| > 0
    ensures SplitSign(whole + "." + frac) == (false, whole + "." + frac)
    ensures FindExponent(whole + "." + frac) == |whole + "." + frac|
    ensures Magnitude(whole + "." + frac, 0) == Some(PointValue(whole, frac))
  {
    var t := whole + "." + frac;
    if |whole| > 0 {
      assert t[0] == whole[0] && DigitOf(whole[0]) < 10;
    } else {
      assert t[0] == '.';
    }
    DotNoExponent(whole, frac);
    MagnitudeOfDot(whole, frac);
  }

  /** Digits, a point and digits hold no exponent marker. */
  lemma DotNoExponent(whole: string, frac: string)
    requires AllDigits(whole, 10) && AllDigits(frac, 10)
    ensures FindExponent(whole + "." + frac) == |whole + "." + frac|
  {
    var t := whole + "." + frac;
    assert forall i :: 0 <= i < |t| ==> t[i] == '.' || IsDigit(t[i]) by {
      assert forall i :: 0 <= i < |whole| ==> t[i] == whole[i] && IsDigit(t[i]);
      assert forall i :: |whole| < i < |t| ==> t[i] == frac[i - |whole| - 1] && IsDigit(t[i]);
    }
  }

  /** The point of digits, a point and digits is the one between the two runs. */
  lemma DotPoint(whole: string, frac: string)
    requires AllDigits(whole, 10)
    ensures var t := whole + "." + frac;
      Find(t, '.') == |whole| && t[..|whole|] == whole && t[|whole| + 1..] == frac
  {
    var t := whole + "." + frac;
    assert forall i :: 0 <= i < |whole| ==> t[i] == whole[i] && IsDigit(t[i]);
    assert t[|whole|] == '.';
    assert t[..|whole|] == whole && t[|whole| + 1..] == frac;
  }

  /** Without an exponent marker, ParseDecimal signs the magnitude of the whole unsigned text. */
  lemma DecimalNoExponent(s: string, v: real)
    requires FindExponent(SplitSign(s).1) == |SplitSign(s).1|
    requires Magnitude(SplitSign(s).1, 0) == Some(v)
    ensures ParseDecimal(s) == Some(if SplitSign(s).0 then -v else v)
  {
    var t := SplitSign(s).1;
    assert t[..FindExponent(t)] == t;
  }

  /** The magnitude of digits, a point and digits is the number they write. */
  lemma MagnitudeOfDot(whole: string, frac: string)
    requires AllDigits(whole, 10) && AllDigits(frac, 10) && |whole| + |frac| > 0
    ensures Magnitude(whole + "." + frac, 0) == Some(PointValue(whole, frac))
  {
    DotPoint(whole, frac);
    MagnitudeSplit(whole, frac, 0);
    ScalePoint(whole, frac);
  }

  /** The magnitude of `W.F` under exponent `k` is the digits of both runs scaled by
      `k` less the fraction's length. */
  lemma MagnitudeSplit(whole: string, frac: string, k: int)
    requires AllDigits(whole, 10) && AllDigits(frac, 10) && |whole| + |frac| > 0
    requires var t := whole + "." + frac;
      Find(t, '.') == |whole| && t[..|whole|] == whole && t[|whole| + 1..] == frac
    ensures Magnitude(whole + "." + frac, k) == Some(Scale(DigitsValue(whole + frac, 10), k - |frac|))
  {
  }

  /** The number written as the digits `whole`, a point and the digits `frac`:
      moving the first fraction digit in front of the point multiplies by ten. */
  function PointValue(whole: string, frac: string): real
    requires AllDigits(whole, 10) && AllDigits(frac, 10)
    decreases |frac|
  {
    if frac == [] then DigitsValue(whole, 10) as real
    else
      assert AllDigits(whole + frac[..1], 10) by {
        assert forall i :: 0 <= i < |whole| + 1 ==> (whole + frac[..1])[i] == if i < |whole| then whole[i] else frac[0];
      }
      PointValue(whole + frac[..1], frac[1..]) / 10.0
  }

  /** Scaling the digits of both runs down by the fraction's length gives the written number. */
  lemma {:induction false} ScalePoint(whole: string, frac: string)
    requires AllDigits(whole, 10) && AllDigits(frac, 10)
    ensures AllDigits(whole + frac, 10)
    ensures Scale(DigitsValue(whole + frac, 10), 0 - |frac|) == PointValue(whole, frac)
    decreases |frac|
  {
    DigitsJoin(whole, frac);
    if frac == [] {
      assert whole + frac == whole;
    } else {
      var next, rest := whole + frac[..1], frac[1..];
      DigitsJoin(whole, frac[..1]);
      DigitsJoin(next, rest);
      assert next + rest == whole + frac;
      ScalePoint(next, rest);
      ScaleStep(DigitsValue(whole + frac, 10), |frac|);
      assert PointValue(whole, frac) == PointValue(next, rest) / 10.0;
    }
  }

  /** Two digit runs written one after the other are a digit run. */
  lemma DigitsJoin(a: string, b: string)
    requires AllDigits(a, 10) && AllDigits(b, 10)
    ensures AllDigits(a + b, 10)
  {
    assert forall i :: 0 <= i < |a + b| ==> (a + b)[i] == if i < |a| then a[i] else b[i - |a|];
  }

  lemma ScaleStep(m: nat, k: nat)
    requires k > 0
    ensures Scale(m, 0 - k) == Scale(m, 0 - (k - 1)) / 10.0
  {
    var p := Pow10(k - 1);
    assert Pow10(k) as real == 10.0 * p as real;
    ScaleDown(m, k);
    ScaleDown(m, k - 1);
    DivideTen(m as real, p as real);
  }

  /** The written number is the whole part plus the fraction digits over ten to their count. */
  lemma PointValueSum(whole: string, frac: string)
    requires AllDigits(whole, 10) && AllDigits(frac, 10)
    ensures PointValue(whole, frac) == FractionalValue(DigitsValue(whole, 10), DigitsValue(frac, 10), |frac|)
  {
    ScalePoint(whole, frac);
    DigitsAppend(whole, frac);
    FractionValue(DigitsValue(whole + frac, 10), DigitsValue(whole, 10), DigitsValue(frac, 10), |frac|);
  }

  lemma DivideTen(m: real, p: real)
    requires p > 0.0
    ensures m / (10.0 * p) == (m / p) / 10.0
  {
  }

  /** A whole part `w` plus the `k` fraction digits spelling `f`. */
  function FractionalValue(w: nat, f: nat, k: nat): real {
    w as real + f as real / Pow10(k) as real
  }

  lemma FractionValue(m: nat, w: nat, f: nat, k: nat)
    requires m == w * Pow10(k) + f
    ensures Scale(m, 0 - k) == FractionalValue(w, f, k)
  {
    ScaleDown(m, k);
    FractionOf(w, f, Pow10(k));
  }

  lemma ScaleDown(m: nat, k: nat)
    ensures Scale(m, 0 - k) == m as real / Pow10(k) as real
  {
    if k == 0 {
      assert Pow10(0) == 1;
    }
  }

  lemma FractionOf(w: nat, f: nat, p: nat)
    requires p > 0
    ensures (w * p + f) as real / p as real == w as real + f as real / p as real
  {
    CastSum(w, p, f);
    DivideSum(w as real, f as real, p as real);
  }

  lemma CastSum(w: nat, p: nat, f: nat)
    ensures (w * p + f) as real == w as real * p as real + f as real
  {
  }

  lemma DivideSum(a: real, b: real, p: real)
    requires p > 0.0
    ensures (a * p + b) / p == a + b / p
  {
    assert (a + b / p) * p == a * p + b;
  }

  /** Unsigned mantissa text, an exponent marker and exponent text: the mantissa's
      magnitude under the exponent `int` reads there, or failure when it reads none. */
  lemma ExponentSplit(m: string, marker: char, x: string)
    requires marker == 'e' || marker == 'E'
    requires FindExponent(m) == |m|
    ensures UnsignedDecimal(m + [marker] + x) ==
      if ParseInt(x).Some? then Magnitude(m, ParseInt(x).value) else None
  {
    var t := m + [marker] + x;
    assert forall j :: 0 <= j < |m| ==> t[j] == m[j];
    assert t[|m|] == marker;
    assert FindExponent(t) == |m|;
    assert t[..|m|] == m && t[|m| + 1..] == x;
  }

  /** Digits with an exponent, `DeK` or `DEK`: the digits' value times ten to the
      exponent, for any exponent text `int` reads (`2`, `+02`, `-3`); other exponent
      text fails. */
  lemma DecimalOfExponent(d: string, marker: char, x: string)
    requires |d| > 0 && AllDigits(d, 10) && (marker == 'e' || marker == 'E')
    ensures ParseDecimal(d + [marker] + x) ==
      if ParseInt(x).Some? then Some(Scale(DigitsValue(d, 10), ParseInt(x).value)) else None
  {
    PlainDigits(d);
    ExponentSplit(d, marker, x);
    var t := d + [marker] + x;
    assert SplitSign(t) == (false, t) by {
      assert t[0] == d[0] && DigitOf(d[0]) < 10;
    }
    if ParseInt(x).Some? {
      MagnitudeOfDigits(d, ParseInt(x).value);
    }
  }

  /** The magnitude of a digit run under exponent `k` is its value times ten to `k`. */
  lemma MagnitudeOfDigits(d: string, k: int)
    requires |d| > 0 && AllDigits(d, 10)
    ensures Magnitude(d, k) == Some(Scale(DigitsValue(d, 10), k))
  {
    PlainDigits(d);
    assert d[..|d|] == d && d + [] == d;
  }

  /** A decimal with a point and an exponent, `W.FeK`: the digits of both runs times ten
      to `K` less the number of fraction digits. */
  lemma DecimalOfPointExponent(whole: string, frac: string, marker: char, x: string)
    requires AllDigits(whole, 10) && AllDigits(frac, 10) && |whole| + |frac| > 0
    requires marker == 'e' || marker == 'E'
    ensures ParseDecimal(whole + "." + frac + [marker] + x) ==
      if ParseInt(x).Some? then Some(Scale(DigitsValue(whole + frac, 10), ParseInt(x).value - |frac|)) else None
  {
    var m := whole + "." + frac;
    DotText(whole, frac);
    ExponentSplit(m, marker, x);
    var t := m + [marker] + x;
    assert t[0] == m[0];
    assert SplitSign(t) == (false, t);
    if ParseInt(x).Some? {
      DotPoint(whole, frac);
      MagnitudeSplit(whole, frac, ParseInt(x).value);
    }
  }

  lemma DecimalOfInt(n: int)
    ensures ParseDecimal(FormatInt(n)) == Some(n as real)
  {
    var m: nat := if n < 0 then -n else n;
    var d := ToDigits(m, 10);
    ToDigitsValue(m, 10);
    PlainDigits(d);
    if n < 0 {
      assert FormatInt(n)[1..] == d;
    }
    DecimalOfDigits(FormatInt(n), d);
  }
}

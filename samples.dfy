/** The documented behaviour of the caster on a few concrete inputs, derived from the
    general lemmas. */
module Samples {
  import opened Wrappers
  import opened Values
  import opened Numerals
  import opened Patterns
  import opened Converters
  import opened Kerning
  import opened Features

  lemma Texts()
    ensures FormatInt(1) == "1" && FormatInt(20) == "20" && FormatInt(100) == "100" && FormatInt(200) == "200"
    ensures FormatInt(-10) == "-10" && FormatInt(10) == "10" && FormatInt(500) == "500" && FormatInt(1000) == "1000"
  {
    assert ToDigits(2, 10) == "2" && ToDigits(1, 10) == "1" && ToDigits(5, 10) == "5";
    assert ToDigits(10, 10) == ToDigits(1, 10) + [DigitChar(0)];
    assert ToDigits(20, 10) == ToDigits(2, 10) + [DigitChar(0)];
    assert ToDigits(50, 10) == ToDigits(5, 10) + [DigitChar(0)];
    assert ToDigits(100, 10) == ToDigits(10, 10) + [DigitChar(0)];
    assert ToDigits(200, 10) == ToDigits(20, 10) + [DigitChar(0)];
    assert ToDigits(500, 10) == ToDigits(50, 10) + [DigitChar(0)];
    assert ToDigits(1000, 10) == ToDigits(100, 10) + [DigitChar(0)];
  }

  /** `descender_val("-10")` is -10 and `descender_val("10")` fails; `version_minor("500")`
      is 500 and `version_minor("1000")` fails. */
  lemma RangeChecks()
    ensures DescenderVal("-10") == Some(Int(-10)) && DescenderVal("10").None?
    ensures VersionMinor("500") == Some(Int(500)) && VersionMinor("1000").None?
  {
    Texts();
    DescenderOfInt(-10);
    DescenderOfInt(10);
    VersionMinorOfInt(500);
    VersionMinorOfInt(1000);
  }

  /** `point("{1,2,3}")` fails: the second field is not preceded by `", "`. */
  lemma PointWrongSeparator()
    ensures Point("{1,2,3}").None?
  {
    var t := "1,2,3}";
    assert TokenLength(t) == 1 by {
      assert IsTokenChar(t[0]) && !IsTokenChar(t[1]);
    }
    assert t[1..3][1] == '2';
    assert "{1,2,3}"[1..] == t;
  }

  /** `node("100 200 LINE")` is `[100, 200, "LINE", None]`. */
  lemma NodeSample()
    ensures Node("100 200 LINE") == Some(List([Int(100), Int(200), Str("LINE"), Null]))
  {
    var m := NodeMatch("100", "200", "LINE", false);
    assert IsToken("100") && IsToken("200");
    assert RenderNode(m) + "" == "100 200 LINE";
    NodeOfRendered(m, "");
    Texts();
    NumOfInt(100);
    NumOfInt(200);
  }

  /** `vector("{1, 2.5}", 2)` is `[1, 2.5]`. */
  lemma VectorSample()
    ensures Vector("{1, 2.5}", 2) == Some(List([Int(1), Real(2.5)]))
  {
    var toks := ["1", "2.5"];
    assert AllTokens(toks) by {
      assert IsToken("1") && IsToken("2.5");
    }
    assert RenderVector(toks) + "" == "{1, 2.5}";
    assert Num(toks[0]) == Some(Int(1)) by {
      Texts();
      NumOfInt(1);
    }
    assert Num(toks[1]) == Some(Real(2.5)) by {
      NumTwoAndAHalf();
    }
    PairVector("{1, 2.5}", toks, Int(1), Real(2.5));
  }

  /** A rendered pair of tokens that `num` accepts reads back as the pair of numbers. */
  lemma PairVector(s: string, toks: seq<string>, x: Value, y: Value)
    requires |toks| == 2 && AllTokens(toks) && s == RenderVector(toks) + ""
    requires Num(toks[0]) == Some(x) && Num(toks[1]) == Some(y)
    ensures Vector(s, 2) == Some(List([x, y]))
  {
    VectorOf(toks, "");
    var nums := NumAll(toks);
    assert nums.Some? by {
      forall i | 0 <= i < |toks|
        ensures Num(toks[i]).Some?
      {
        assert i == 0 || i == 1;
      }
    }
    assert nums.value[0] == x && nums.value[1] == y;
    assert nums.value == [x, y];
  }

  /** `num("2.5")` is the float 2.5. */
  lemma NumTwoAndAHalf()
    ensures Num("2.5") == Some(Real(2.5))
  {
    assert "2" + "." + "5" == "2.5";
    OneFractionDigit("2", '5');
    assert DigitsValue("2" + ['5'], 10) == 25 by {
      assert "2" + ['5'] == "25";
      assert DigitsValue("25", 10) == DigitsValue("2", 10) * 10 + 5;
    }
    NumOfPoint("2.5", "2", "5", 2.5);
  }

  /** One fraction digit: the digits read as a whole, over ten. */
  lemma OneFractionDigit(whole: string, c: char)
    requires AllDigits(whole, 10) && IsDigit(c)
    ensures AllDigits(whole + [c], 10) && PointValue(whole, [c]) == DigitsValue(whole + [c], 10) as real / 10.0
  {
    assert [c][..1] == [c] && [c][1..] == [];
    assert forall i :: 0 <= i < |whole| + 1 ==> (whole + [c])[i] == if i < |whole| then whole[i] else c;
  }

  /** Decimal text with a nonzero fraction comes back from `num` as the float it writes. */
  lemma NumOfPoint(s: string, whole: string, frac: string, v: real)
    requires AllDigits(whole, 10) && AllDigits(frac, 10) && |whole| + |frac| > 0
    requires s == whole + "." + frac && DigitsValue(frac, 10) != 0 && PointValue(whole, frac) == v
    ensures Num(s) == Some(Real(v))
  {
    NumOfText(whole, frac);
  }

  /** `node("10.5 20 CURVE SMOOTH")` is `[10.5, 20, "CURVE", "SMOOTH"]`. */
  lemma SmoothNodeSample()
    ensures Node("10.5 20 CURVE SMOOTH") == Some(List([Real(10.5), Int(20), Str("CURVE"), Str("SMOOTH")]))
  {
    var m := NodeMatch("10.5", "20", "CURVE", true);
    assert IsToken("10.5") && IsToken("20");
    assert RenderNode(m) + "" == "10.5 20 CURVE SMOOTH";
    NodeOfRendered(m, "");
    Texts();
    NumOfInt(20);
    NumTenAndAHalf();
  }

  /** `num("10.5")` is the float 10.5. */
  lemma NumTenAndAHalf()
    ensures Num("10.5") == Some(Real(10.5))
  {
    assert "10" + "." + "5" == "10.5";
    OneFractionDigit("10", '5');
    assert DigitsValue("10" + ['5'], 10) == 105 by {
      assert "10" + ['5'] == "105";
      assert DigitsValue("105", 10) == DigitsValue("10", 10) * 10 + 5;
      assert DigitsValue("10", 10) == DigitsValue("1", 10) * 10 + 0;
    }
    NumOfPoint("10.5", "10", "5", 10.5);
  }

  /** `float("1e2")` is 100, so `num("1e2")` is the int 100. */
  lemma ExponentSample()
    ensures ParseDecimal("1e2") == Some(100.0) && Num("1e2") == Some(Int(100))
  {
    assert "1" + ['e'] + "2" == "1e2";
    assert DigitsValue("1", 10) == 1;
    assert DigitsValue("2", 10) == 2;
    ParseIntOfDigits("2");
    assert Scale(1, 2) == 100.0 by {
      assert Pow10(2) == 100;
    }
    ExponentValue("1e2", "1", 'e', "2", 2, 100.0);
  }

  /** `float("25e-1")` is 2.5: a negative exponent moves the point left. */
  lemma NegativeExponentSample()
    ensures ParseDecimal("25e-1") == Some(2.5)
  {
    assert "25" + ['e'] + ("-" + "1") == "25e-1";
    assert DigitsValue("25", 10) == 25 by {
      assert "25"[..1] == "2";
    }
    assert DigitsValue("1", 10) == 1;
    ParseIntOfDigits("1");
    assert Scale(25, -1) == 2.5 by {
      assert Pow10(1) == 10;
    }
    ExponentValue("25e-1", "25", 'e', "-" + "1", -1, 2.5);
  }

  /** Digits, a marker and exponent text `int` reads as `k`: the value the digits scale to. */
  lemma ExponentValue(s: string, d: string, marker: char, x: string, k: int, v: real)
    requires |d| > 0 && AllDigits(d, 10) && (marker == 'e' || marker == 'E') && s == d + [marker] + x
    requires ParseInt(x) == Some(k) && Scale(DigitsValue(d, 10), k) == v
    ensures ParseDecimal(s) == Some(v)
  {
    DecimalOfExponent(d, marker, x);
  }

  /** `int("007")` is 7: leading zeros are accepted. */
  lemma LeadingZerosSample()
    ensures ParseInt("007") == Some(7)
  {
    assert AllDigits("007", 10) by {
      assert DigitOf('0') == 0 && DigitOf('7') == 7;
    }
    assert DigitsValue("007", 10) == 7 by {
      assert "007"[..2] == "00" && "00"[..1] == "0" && "0"[..0] == [];
    }
    ParseIntOfDigits("007");
  }

  /** `int("+5")` is 5 and `int("-12")` is -12. */
  lemma SignedIntSample()
    ensures ParseInt("+5") == Some(5) && ParseInt("-12") == Some(-12)
  {
    assert DigitsValue("5", 10) == 5;
    ParseIntOfDigits("5");
    assert "+" + "5" == "+5";
    assert DigitsValue("12", 10) == 12 by {
      assert "12"[..1] == "1";
    }
    ParseIntOfDigits("12");
    assert "-" + "12" == "-12";
  }

  /** `hex_int("00C5")` is 197. */
  lemma HexSample()
    ensures HexInt("00C5") == Some(Int(197))
  {
    HexValue("00C5", '0', '0', 'C', '5');
  }

  /** The value of four hexadecimal digits, built one digit at a time. */
  lemma HexValue(s: string, a: char, b: char, c: char, e: char)
    requires s == [a, b, c, e] && a == '0' && b == '0' && c == 'C' && e == '5'
    ensures HexInt(s) == Some(Int(197))
  {
    assert DigitOf(a) == 0 && DigitOf(b) == 0 && DigitOf(c) == 12 && DigitOf(e) == 5;
    DigitsSnoc([], a, 16);
    assert [] + [a] == [a];
    assert DigitsValue([a], 16) == 0;
    DigitsSnoc([a], b, 16);
    assert [a] + [b] == [a, b];
    assert DigitsValue([a, b], 16) == 0;
    DigitsSnoc([a, b], c, 16);
    assert [a, b] + [c] == [a, b, c];
    assert DigitsValue([a, b, c], 16) == 12;
    DigitsSnoc([a, b, c], e, 16);
    assert [a, b, c] + [e] == s;
    assert DigitsValue(s, 16) == 197;
    HexOfDigits(s);
  }

  /** The kerning grid `{"m1": {"A": {"B": "10"}}}` casts to `{"m1": {"A": {"B": 10}}}`. */
  lemma KerningSample()
    ensures KerningTable(Map(map["m1" := Map(map["A" := Map(map["B" := Str("10")])])]))
         == Some(Map(map["m1" := Map(map["A" := Map(map["B" := Int(10)])])]))
  {
    var glyphs := map["A" := Map(map["B" := Str("10")])];
    GlyphLevelSample();
    var masters := map["m1" := Map(glyphs)];
    assert CastMaster(masters["m1"]) == Some(Map(map["A" := Map(map["B" := Int(10)])]));
    assert KerningTable(Map(masters)).value.fields == map["m1" := Map(map["A" := Map(map["B" := Int(10)])])];
  }

  lemma GlyphLevelSample()
    ensures CastGlyphs(map["A" := Map(map["B" := Str("10")])]) == Some(map["A" := Map(map["B" := Int(10)])])
  {
    PairsSample();
    var glyphs := map["A" := Map(map["B" := Str("10")])];
    assert CastLeft(glyphs["A"]) == Some(Map(map["B" := Int(10)]));
    assert CastGlyphs(glyphs).value == map["A" := Map(map["B" := Int(10)])];
  }

  lemma PairsSample()
    ensures CastPairs(map["B" := Str("10")]) == Some(map["B" := Int(10)])
  {
    Texts();
    IntRoundTrip(10);
    var pairs := map["B" := Str("10")];
    assert PairValue(pairs["B"]) == Some(Int(10));
    assert CastPairs(pairs).value == map["B" := Int(10)];
  }

  /** The curly quotes of feature code become straight ones. */
  lemma FeatureSample()
    ensures Unescaped("\\U2018hello\\U2019") == "'hello'"
  {
    Quotes("\\U2018hello\\U2019", "hello\\U2019", "'hello");
  }

  /** The sample unescaped one replacement at a time. */
  lemma Quotes(text: string, tail: string, word: string)
    requires text == "\\U2018hello\\U2019" && tail == "hello\\U2019" && word == "'hello"
    ensures Unescaped(text) == word + "'"
  {
    ThroughOpenQuote(text, tail);
    UnescapeStep(text, 3, "'" + tail);
    CloseQuote(tail, word);
    UnescapedWithoutBackslashFrom(word + "'", 4, 6);
  }

  /** The first three replacements: only the opening quote is found. */
  lemma ThroughOpenQuote(text: string, tail: string)
    requires text == "\\U2018hello\\U2019" && tail == "hello\\U2019"
    ensures UnescapedUpTo(text, 3) == "'" + tail
  {
    UnescapeStep(text, 0, text);
    NoEscape(text, 0);
    UnescapeStep(text, 1, text);
    NoEscape(text, 1);
    UnescapeStep(text, 2, text);
    OpenQuote(text, tail);
  }

  /** One more replacement applied to the text so far. */
  lemma UnescapeStep(s: string, n: nat, t: string)
    requires n < |Replacements| && UnescapedUpTo(s, n) == t
    ensures UnescapedUpTo(s, n + 1) == ReplaceAll(t, Replacements[n].0, Replacements[n].1)
  {
  }

  lemma OpenQuote(text: string, tail: string)
    requires text == "\\U2018hello\\U2019" && tail == "hello\\U2019"
    ensures ReplaceAll(text, Replacements[2].0, Replacements[2].1) == "'" + tail
  {
    assert Replacements[2] == ("\\U2018", "'");
    assert text == "\\U2018" + tail;
    ReplaceAllHit(tail, "\\U2018", "'");
    NoEscape(tail, 2);
  }

  lemma CloseQuote(tail: string, word: string)
    requires tail == "hello\\U2019" && word == "'hello"
    ensures ReplaceAll("'" + tail, Replacements[3].0, Replacements[3].1) == word + "'"
  {
    assert Replacements[3] == ("\\U2019", "'");
    assert "'" + tail == word + "\\U2019";
    ReplaceAllSkip(word, "\\U2019", "\\U2019", "'");
    ReplaceAllHit("", "\\U2019", "'");
    ReplaceAllShort("", "\\U2019", "'");
  }

  /** The sample text holds no newline or tab escape, and its tail no opening quote. */
  lemma NoEscape(s: string, n: nat)
    requires || (s == "\\U2018hello\\U2019" && n < 2)
             || (s == "hello\\U2019" && n == 2)
    ensures ReplaceAll(s, Replacements[n].0, Replacements[n].1) == s
  {
    var pattern := Replacements[n].0;
    assert pattern == ["\\012", "\\011", "\\U2018"][n];
    forall i: nat
      ensures !OccursAt(s, pattern, i)
    {
      if i + |pattern| <= |s| {
        var w := s[i..i + |pattern|];
        assert w[0] == s[i] && w[1] == s[i + 1] && w[|pattern| - 1] == s[i + |pattern| - 1];
      }
    }
    ReplaceAllNone(s, pattern, Replacements[n].1);
  }
}

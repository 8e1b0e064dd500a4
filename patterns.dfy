/** Hand-written matchers for the two regular expressions of the caster: the vector
    pattern `{(tok), (tok), ...}` and the node pattern `(tok) (tok) (LINE|CURVE|OFFCURVE)( SMOOTH)?`,
    where `tok` is `[-.e\d]+`. Both are applied with `re.match`, which anchors at the
    start only: text after the match is ignored. A token is followed in both patterns by
    a character outside the token class (`,`, `}` or a space), so the greedy `+` never
    needs to backtrack and the match is unique. */
module Patterns {
  import opened Wrappers
  import Numerals

  /** The character class `[-.e\d]`. */
  predicate IsTokenChar(c: char) {
    c == '-' || c == '.' || c == 'e' || Numerals.IsDigit(c)
  }

  predicate IsToken(t: string) {
    |t| > 0 && forall i :: 0 <= i < |t| ==> IsTokenChar(t[i])
  }

  predicate AllTokens(toks: seq<string>) {
    forall i :: 0 <= i < |toks| ==> IsToken(toks[i])
  }

  /** Length of the longest prefix of `s` made of token characters. */
  function TokenLength(s: string): (n: nat)
    ensures n <= |s|
    ensures forall i :: 0 <= i < n ==> IsTokenChar(s[i])
    ensures n < |s| ==> !IsTokenChar(s[n])
  {
    if s != [] && IsTokenChar(s[0]) then 1 + TokenLength(s[1..]) else 0
  }

  /** A token followed by a non-token character is exactly what the greedy `+` takes. */
  lemma {:induction false} TokenLengthOf(t: string, rest: string)
    requires forall i :: 0 <= i < |t| ==> IsTokenChar(t[i])
    requires rest == [] || !IsTokenChar(rest[0])
    ensures TokenLength(t + rest) == |t|
  {
    var s := t + rest;
    assert forall i :: 0 <= i < |t| ==> s[i] == t[i];
    assert |t| < |s| ==> s[|t|] == rest[0];
  }

  /** `", ".join(toks)`. */
  function Join(toks: seq<string>): string {
    if |toks| == 0 then "" else if |toks| == 1 then toks[0] else toks[0] + ", " + Join(toks[1..])
  }

  /** The text a vector with these tokens is written as. */
  function RenderVector(toks: seq<string>): string {
    "{" + Join(toks) + "}"
  }

  /** What follows the opening brace: `d` tokens separated by `", "`, then `}`. */
  function MatchFields(t: string, d: nat): (r: Option<seq<string>>)
    ensures r.Some? ==> |r.value| == d && AllTokens(r.value)
    decreases d
  {
    if d == 0 then
      if |t| > 0 && t[0] == '}' then Some([]) else None
    else
      var n := TokenLength(t);
      if n == 0 then None
      else if d == 1 then
        if n < |t| && t[n] == '}' then Some([t[..n]]) else None
      else if n + 2 <= |t| && t[n..n + 2] == ", " then
        match MatchFields(t[n + 2..], d - 1)
        case Some(more) => Some([t[..n]] + more)
        case None => None
      else None
  }

  /** `re.match('{%s}' % ', '.join(['([-.e\d]+)'] * d), s)`, giving the captured groups. */
  function MatchVector(s: string, d: nat): (r: Option<seq<string>>)
    ensures r.Some? ==> |r.value| == d && AllTokens(r.value)
  {
    if |s| > 0 && s[0] == '{' then
      var fields := MatchFields(s[1..], d);
      if fields.Some? then MatchFieldsSound(s[1..], d); fields else fields
    else None
  }

  lemma {:induction false} PrefixAfter(c: string, a: string, b: string)
    requires a <= b
    ensures c + a <= c + b
  {
    assert (c + b)[..|c + a|] == c + b[..|a|];
  }

  lemma {:induction false} MatchFieldsSound(t: string, d: nat)
    requires MatchFields(t, d).Some?
    ensures var toks := MatchFields(t, d).value;
      |toks| == d && AllTokens(toks) && Join(toks) + "}" <= t
    decreases d
  {
    if d == 1 {
      OneFieldSound(t);
    } else if d >= 2 {
      var n := TokenLength(t);
      ManyFieldsUnfold(t, d);
      var tail := t[n + 2..];
      MatchFieldsSound(tail, d - 1);
      JoinedPrefix(t, n, MatchFields(tail, d - 1).value);
    }
  }

  lemma {:induction false} OneFieldSound(t: string)
    requires MatchFields(t, 1).Some?
    ensures var toks := MatchFields(t, 1).value;
      |toks| == 1 && AllTokens(toks) && Join(toks) + "}" <= t
  {
    var n := TokenLength(t);
    assert MatchFields(t, 1).value == [t[..n]];
    assert Join([t[..n]]) + "}" == t[..n + 1];
  }

  /** What a successful match of two or more fields is made of. */
  lemma {:induction false} ManyFieldsUnfold(t: string, d: nat)
    requires d >= 2 && MatchFields(t, d).Some?
    ensures var n := TokenLength(t);
      && 0 < n && n + 2 <= |t| && t[n..n + 2] == ", " && IsToken(t[..n])
      && MatchFields(t[n + 2..], d - 1).Some?
      && MatchFields(t, d).value == [t[..n]] + MatchFields(t[n + 2..], d - 1).value
  {
  }

  lemma {:induction false} JoinedPrefix(t: string, n: nat, more: seq<string>)
    requires 0 < n && n + 2 <= |t| && t[n..n + 2] == ", "
    requires IsToken(t[..n]) && AllTokens(more) && |more| > 0
    requires Join(more) + "}" <= t[n + 2..]
    ensures AllTokens([t[..n]] + more)
    ensures Join([t[..n]] + more) + "}" <= t
  {
    var toks := [t[..n]] + more;
    assert toks[1..] == more;
    assert Join(toks) + "}" == t[..n] + ", " + (Join(more) + "}");
    assert t == t[..n] + ", " + t[n + 2..];
    PrefixAfter(t[..n] + ", ", Join(more) + "}", t[n + 2..]);
  }

  /** One more token and separator in front of the remaining fields. */
  lemma {:induction false} MatchFieldsCons(tok: string, s: string, d: nat)
    requires IsToken(tok) && d >= 2
    ensures MatchFields(tok + ", " + s, d) ==
      if MatchFields(s, d - 1).Some? then Some([tok] + MatchFields(s, d - 1).value) else None
  {
    var t := tok + ", " + s;
    TokenLengthOf(tok, ", " + s);
    var n := |tok|;
    assert t[..n] == tok;
    assert t[n..n + 2] == ", ";
    assert t[n + 2..] == s;
  }

  /** The last token of the fields, before the closing brace. */
  lemma {:induction false} MatchFieldsLast(tok: string, s: string)
    requires IsToken(tok)
    ensures MatchFields(tok + "}" + s, 1) == Some([tok])
  {
    var t := tok + "}" + s;
    TokenLengthOf(tok, "}" + s);
    assert t[..|tok|] == tok;
    assert t[|tok|] == '}';
  }

  lemma {:induction false} MatchFieldsComplete(toks: seq<string>, rest: string)
    requires AllTokens(toks)
    ensures MatchFields(Join(toks) + "}" + rest, |toks|) == Some(toks)
    decreases |toks|
  {
    if |toks| == 0 {
      assert (Join(toks) + "}" + rest)[0] == '}';
    } else if |toks| == 1 {
      assert Join(toks) == toks[0];
      MatchFieldsLast(toks[0], rest);
      assert toks == [toks[0]];
    } else {
      assert AllTokens(toks[1..]) by {
        assert forall i :: 0 <= i < |toks| - 1 ==> toks[1..][i] == toks[i + 1];
      }
      MatchFieldsComplete(toks[1..], rest);
      ManyFieldsComplete(toks, rest);
    }
  }

  lemma {:induction false} ManyFieldsComplete(toks: seq<string>, rest: string)
    requires |toks| >= 2 && IsToken(toks[0])
    requires MatchFields(Join(toks[1..]) + "}" + rest, |toks| - 1) == Some(toks[1..])
    ensures MatchFields(Join(toks) + "}" + rest, |toks|) == Some(toks)
  {
    JoinTail(toks, rest);
    assert [toks[0]] + toks[1..] == toks;
    FieldsCons(toks[0], Join(toks[1..]) + "}" + rest, Join(toks) + "}" + rest, toks[1..], toks, |toks|);
  }

  /** A token and separator in front of fields that match as `more` match as `[tok] + more`. */
  lemma {:induction false} FieldsCons(tok: string, tail: string, t: string, more: seq<string>, toks: seq<string>, d: nat)
    requires IsToken(tok) && d >= 2 && t == tok + ", " + tail && toks == [tok] + more
    requires MatchFields(tail, d - 1) == Some(more)
    ensures MatchFields(t, d) == Some(toks)
  {
    MatchFieldsCons(tok, tail, d);
  }

  /** A successful vector match captured `d` tokens and the string begins with their rendering. */
  lemma {:induction false} MatchVectorSound(s: string, d: nat)
    requires MatchVector(s, d).Some?
    ensures var toks := MatchVector(s, d).value;
      |toks| == d && AllTokens(toks) && RenderVector(toks) <= s
  {
    var t := s[1..];
    assert MatchVector(s, d) == MatchFields(t, d);
    MatchFieldsSound(t, d);
    var inner := Join(MatchFields(t, d).value) + "}";
    PrefixOfTail(s, inner);
    assert RenderVector(MatchFields(t, d).value) == [s[0]] + inner;
  }

  lemma {:induction false} PrefixOfTail(s: string, x: string)
    requires |s| > 0 && x <= s[1..]
    ensures [s[0]] + x <= s
  {
    assert s == [s[0]] + s[1..];
    PrefixAfter([s[0]], x, s[1..]);
  }

  /** Every rendering of `d` tokens matches, whatever follows it. */
  lemma {:induction false} MatchVectorComplete(toks: seq<string>, rest: string)
    requires AllTokens(toks)
    ensures MatchVector(RenderVector(toks) + rest, |toks|) == Some(toks)
  {
    var s := RenderVector(toks) + rest;
    assert s[1..] == Join(toks) + "}" + rest;
    MatchFieldsComplete(toks, rest);
  }

  /** Fields rendered from a different number of tokens than asked for never match. */
  lemma {:induction false} MatchFieldsWrongArity(toks: seq<string>, rest: string, d: nat)
    requires AllTokens(toks) && d != |toks|
    ensures MatchFields(Join(toks) + "}" + rest, d).None?
    decreases |toks|
  {
    if |toks| == 0 {
      NoFieldsWrongArity(rest, d);
    } else if |toks| == 1 {
      OneFieldWrongArity(toks, rest, d);
    } else {
      if d >= 2 {
        assert AllTokens(toks[1..]) by {
          assert forall i :: 0 <= i < |toks| - 1 ==> toks[1..][i] == toks[i + 1];
        }
        MatchFieldsWrongArity(toks[1..], rest, d - 1);
      }
      ManyFieldsWrongArity(toks, rest, d);
    }
  }

  lemma {:induction false} ManyFieldsWrongArity(toks: seq<string>, rest: string, d: nat)
    requires |toks| >= 2 && IsToken(toks[0])
    requires d >= 2 ==> MatchFields(Join(toks[1..]) + "}" + rest, d - 1).None?
    ensures MatchFields(Join(toks) + "}" + rest, d).None?
  {
    JoinTail(toks, rest);
    MoreFieldsWrongArity(toks[0], Join(toks[1..]) + "}" + rest, d);
  }

  lemma {:induction false} NoFieldsWrongArity(rest: string, d: nat)
    requires d != 0
    ensures MatchFields("}" + rest, d).None?
  {
    var t := "}" + rest;
    assert t[0] == '}';
    assert TokenLength(t) == 0;
  }

  lemma {:induction false} OneFieldWrongArity(toks: seq<string>, rest: string, d: nat)
    requires |toks| == 1 && IsToken(toks[0]) && d != 1
    ensures MatchFields(Join(toks) + "}" + rest, d).None?
  {
    var tok := toks[0];
    assert Join(toks) == tok;
    var t := tok + "}" + rest;
    assert t == tok + ("}" + rest);
    TokenLengthOf(tok, "}" + rest);
    if d == 0 {
      assert t[0] == tok[0];
    } else {
      assert t[|tok|] == '}';
      assert |tok| + 2 <= |t| ==> t[|tok|..|tok| + 2] != ", " by {
        if |tok| + 2 <= |t| {
          assert t[|tok|..|tok| + 2][0] == '}';
        }
      }
    }
  }

  lemma {:induction false} MoreFieldsWrongArity(tok: string, tail: string, d: nat)
    requires IsToken(tok) && (d >= 2 ==> MatchFields(tail, d - 1).None?)
    ensures MatchFields(tok + ", " + tail, d).None?
  {
    var t := tok + ", " + tail;
    assert t[0] == tok[0];
    if d == 1 {
      assert t == tok + (", " + tail);
      TokenLengthOf(tok, ", " + tail);
      assert t[|tok|] == ',';
    } else if d >= 2 {
      MatchFieldsCons(tok, tail, d);
    }
  }

  /** A vector of one arity does not match as a vector of another. */
  lemma {:induction false} MatchVectorWrongArity(toks: seq<string>, rest: string, d: nat)
    requires AllTokens(toks) && d != |toks|
    ensures MatchVector(RenderVector(toks) + rest, d).None?
  {
    var s := RenderVector(toks) + rest;
    assert s[1..] == Join(toks) + "}" + rest;
    MatchFieldsWrongArity(toks, rest, d);
  }

  /** The groups of a node match: two tokens, the segment type, whether ` SMOOTH` followed. */
  datatype NodeMatch = NodeMatch(x: string, y: string, kind: string, smooth: bool)

  /** The alternatives of `(LINE|CURVE|OFFCURVE)`, in the order they are tried. */
  const NodeTypes: seq<string> := ["LINE", "CURVE", "OFFCURVE"]

  predicate ValidNodeMatch(m: NodeMatch) {
    IsToken(m.x) && IsToken(m.y) && m.kind in NodeTypes
  }

  /** The first alternative of `(LINE|CURVE|OFFCURVE)` that `u` starts with. */
  function NodeType(u: string): (r: Option<string>)
    ensures r.Some? ==> r.value in NodeTypes && r.value <= u
  {
    if "LINE" <= u then Some("LINE")
    else if "CURVE" <= u then Some("CURVE")
    else if "OFFCURVE" <= u then Some("OFFCURVE")
    else None
  }

  /** `([-.e\d]+) `: a token and the one space after it; gives the token and what follows. */
  function TokenThenSpace(s: string): (r: Option<(string, string)>)
    ensures r.Some? ==> IsToken(r.value.0) && s == r.value.0 + " " + r.value.1
  {
    var n := TokenLength(s);
    if n == 0 || n == |s| || s[n] != ' ' then None
    else
      assert s == s[..n] + [s[n]] + s[n + 1..];
      Some((s[..n], s[n + 1..]))
  }

  lemma {:induction false} TokenThenSpaceComplete(tok: string, rest: string)
    requires IsToken(tok)
    ensures TokenThenSpace(tok + " " + rest) == Some((tok, rest))
  {
    var s := tok + " " + rest;
    assert s == tok + (" " + rest);
    TokenLengthOf(tok, " " + rest);
    assert s[..|tok|] == tok;
    assert s[|tok| + 1..] == rest;
  }

  /** `re.match('([-.e\d]+) ([-.e\d]+) (LINE|CURVE|OFFCURVE)(?: (SMOOTH))?', s)`. */
  function MatchNode(s: string): (r: Option<NodeMatch>)
    ensures r.Some? ==> ValidNodeMatch(r.value)
  {
    match TokenThenSpace(s)
    case None => None
    case Some((x, t)) =>
      match TokenThenSpace(t)
      case None => None
      case Some((y, u)) =>
        match NodeType(u)
        case None => None
        case Some(kind) =>
          Some(NodeMatch(x, y, kind, " SMOOTH" <= u[|kind|..]))
  }

  /** The text a node is written as. */
  function RenderNode(m: NodeMatch): string {
    m.x + " " + m.y + " " + m.kind + (if m.smooth then " SMOOTH" else "")
  }

  /** Each alternative of the segment type is recognised as itself. */
  lemma {:induction false} NodeTypeOf(kind: string, tail: string)
    requires kind in NodeTypes
    ensures NodeType(kind + tail) == Some(kind)
  {
    var u := kind + tail;
    assert kind <= u;
    if kind == "CURVE" {
      assert u[0] == 'C';
    } else if kind == "OFFCURVE" {
      assert u[0] == 'O';
    }
  }

  /** What a node match consumed, and the text after its segment type. */
  lemma {:induction false} MatchNodeSplit(s: string) returns (v: string)
    requires MatchNode(s).Some?
    ensures var m := MatchNode(s).value;
      && ValidNodeMatch(m)
      && s == m.x + " " + m.y + " " + m.kind + v
      && m.smooth == (" SMOOTH" <= v)
  {
    var (x, t) := TokenThenSpace(s).value;
    var (y, u) := TokenThenSpace(t).value;
    var kind := NodeType(u).value;
    v := u[|kind|..];
    assert u == kind + v;
    calc {
      s;
      x + " " + t;
      x + " " + (y + " " + (kind + v));
      { Associate5(x, " ", y, " ", kind, v); }
      x + " " + y + " " + kind + v;
    }
  }

  /** The rendering of two or more fields, split after the first token. */
  lemma {:induction false} JoinTail(toks: seq<string>, rest: string)
    requires |toks| >= 2
    ensures Join(toks) + "}" + rest == toks[0] + ", " + (Join(toks[1..]) + "}" + rest)
  {
    var j := Join(toks[1..]);
    assert Join(toks) == toks[0] + ", " + j;
    Associate4(toks[0], ", ", j, "}", rest);
  }

  lemma {:induction false} Associate4(a: string, b: string, c: string, d: string, e: string)
    ensures a + b + c + d + e == a + b + (c + d + e)
  {
  }

  lemma {:induction false} Associate5(a: string, b: string, c: string, d: string, e: string, f: string)
    ensures a + b + (c + d + (e + f)) == a + b + c + d + e + f
  {
  }

  lemma {:induction false} PrefixCancel(c: string, a: string, b: string)
    requires c + a <= c + b
    ensures a <= b
  {
    assert (c + a)[|c|..] == a;
    assert (c + b)[|c|..|c| + |a|] == b[..|a|];
  }

  /** A node match is valid, the string begins with its rendering, and the optional
      group is absent only when ` SMOOTH` does not follow. */
  lemma {:induction false} MatchNodeSound(s: string)
    requires MatchNode(s).Some?
    ensures var m := MatchNode(s).value;
      && ValidNodeMatch(m)
      && RenderNode(m) <= s
      && (!m.smooth ==> !(RenderNode(m) + " SMOOTH" <= s))
  {
    var v := MatchNodeSplit(s);
    RenderedPrefix(MatchNode(s).value, s, v);
  }

  /** Text that is a node's head followed by `v`, with the smooth flag read off `v`,
      begins with the node's rendering. */
  lemma {:induction false} RenderedPrefix(m: NodeMatch, s: string, v: string)
    requires s == m.x + " " + m.y + " " + m.kind + v && m.smooth == (" SMOOTH" <= v)
    ensures RenderNode(m) <= s
    ensures !m.smooth ==> !(RenderNode(m) + " SMOOTH" <= s)
  {
    var head := m.x + " " + m.y + " " + m.kind;
    if m.smooth {
      var after := v[7..];
      assert v == " SMOOTH" + after;
      calc {
        s;
        head + (" SMOOTH" + after);
        head + " SMOOTH" + after;
        RenderNode(m) + after;
      }
    } else {
      assert RenderNode(m) == head + "";
      assert head + "" == head;
      if RenderNode(m) + " SMOOTH" <= s {
        PrefixCancel(head, " SMOOTH", v);
      }
    }
  }

  /** Every rendering of a valid node matches, whatever follows it, provided that an
      absent ` SMOOTH` is not supplied by the following text. */
  lemma {:induction false} MatchNodeComplete(m: NodeMatch, rest: string)
    requires ValidNodeMatch(m)
    requires m.smooth || !(" SMOOTH" <= rest)
    ensures MatchNode(RenderNode(m) + rest) == Some(m)
  {
    var tail := (if m.smooth then " SMOOTH" else "") + rest;
    var u := m.kind + tail;
    var t := m.y + " " + u;
    assert RenderNode(m) + rest == m.x + " " + t;
    TokenThenSpaceComplete(m.x, t);
    TokenThenSpaceComplete(m.y, u);
    NodeTypeOf(m.kind, tail);
    assert u[|m.kind|..] == tail;
  }
}

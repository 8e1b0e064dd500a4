/** `kerning`: the three-level table master id -> left glyph -> right glyph -> value,
    rebuilt as a new table with every value read as an int. */
module Kerning {
  import opened Wrappers
  import opened Values
  import opened Numerals
  import opened Converters

  /** `int(value)` for one kerning value. */
  function PairValue(v: Value): Option<Value> {
    if v.Str? then IntOf(v.s) else None
  }

  /** Every right glyph of one left glyph maps to text that `int` reads. */
  predicate IntPairs(pairs: map<string, Value>) {
    forall right :: right in pairs ==> pairs[right].Str? && ParseInt(pairs[right].s).Some?
  }

  /** Every left glyph of one master maps to a dictionary of `int` text. */
  predicate IntGlyphs(glyphs: map<string, Value>) {
    forall left :: left in glyphs ==> glyphs[left].Map? && IntPairs(glyphs[left].fields)
  }

  /** A well-formed kerning table: master ids to left glyphs to right glyphs, every
      leaf text that `int` reads. */
  predicate IntLeaves(v: Value) {
    v.Map? && forall master :: master in v.fields ==> v.fields[master].Map? && IntGlyphs(v.fields[master].fields)
  }

  /** The right-glyph level of one left glyph, every value cast: it succeeds exactly when
      every value is `int` text, and then keeps the right glyphs and gives each the int
      its text denotes. */
  function CastPairs(pairs: map<string, Value>): (r: Option<map<string, Value>>)
    ensures r.Some? <==> IntPairs(pairs)
    ensures r.Some? ==> r.value.Keys == pairs.Keys
    ensures r.Some? ==> forall right :: right in pairs ==>
      pairs[right].Str? && r.value[right] == Int(ParseInt(pairs[right].s).value)
  {
    if forall right :: right in pairs ==> PairValue(pairs[right]).Some?
    then Some(map right | right in pairs :: PairValue(pairs[right]).value)
    else None
  }

  /** One left glyph's entry: it casts exactly when it is a dictionary of `int` text, and
      then stays a dictionary with the same right glyphs. */
  function CastLeft(v: Value): (r: Option<Value>)
    ensures r.Some? <==> v.Map? && IntPairs(v.fields)
    ensures r.Some? ==> v.Map? && r.value.Map? && r.value.fields.Keys == v.fields.Keys
  {
    if v.Map? && CastPairs(v.fields).Some? then Some(Map(CastPairs(v.fields).value)) else None
  }

  /** The left-glyph level of one master, every right-glyph level cast: it succeeds exactly
      when every left glyph maps to a dictionary of `int` text, and keeps the left glyphs. */
  function CastGlyphs(glyphs: map<string, Value>): (r: Option<map<string, Value>>)
    ensures r.Some? <==> IntGlyphs(glyphs)
    ensures r.Some? ==> r.value.Keys == glyphs.Keys
  {
    if forall left :: left in glyphs ==> CastLeft(glyphs[left]).Some?
    then Some(map left | left in glyphs :: CastLeft(glyphs[left]).value)
    else None
  }

  /** One master's entry: it casts exactly when it is a dictionary of left glyphs that
      cast, and then stays a dictionary with the same left glyphs. */
  function CastMaster(v: Value): (r: Option<Value>)
    ensures r.Some? <==> v.Map? && IntGlyphs(v.fields)
    ensures r.Some? ==> v.Map? && r.value.Map? && r.value.fields.Keys == v.fields.Keys
  {
    if v.Map? && CastGlyphs(v.fields).Some? then Some(Map(CastGlyphs(v.fields).value)) else None
  }

  /** The whole table, every master cast: a table with the same masters. It succeeds
      exactly on a well-formed table. */
  function KerningTable(v: Value): (r: Option<Value>)
    ensures r.Some? <==> IntLeaves(v)
    ensures r.Some? ==> v.Map? && r.value.Map? && r.value.fields.Keys == v.fields.Keys
  {
    if v.Map? && forall master :: master in v.fields ==> CastMaster(v.fields[master]).Some?
    then Some(Map(map master | master in v.fields :: CastMaster(v.fields[master]).value))
    else None
  }

  /** `kerning(kerning_data)`: fills a new table level by level. The source nests
      the three loops in one function; here each level is its own method. */
  method CastKerning(kerningData: Value) returns (r: Option<Value>)
    ensures r == KerningTable(kerningData)
  {
    if !kerningData.Map? {
      return None;
    }
    var masters := kerningData.fields;
    var newData: map<string, Value> := map[];
    var mastersLeft := masters.Keys;
    while mastersLeft != {}
      invariant mastersLeft <= masters.Keys
      invariant newData.Keys == masters.Keys - mastersLeft
      invariant forall m :: m in newData ==> CastMaster(masters[m]) == Some(newData[m])
      decreases mastersLeft
    {
      var masterId :| masterId in mastersLeft;
      if !masters[masterId].Map? {
        MastersFail(kerningData, masterId);
        return None;
      }
      var newGlyphs := CastLeftGlyphs(masters[masterId].fields);
      if newGlyphs.None? {
        MastersFail(kerningData, masterId);
        return None;
      }
      newData := newData[masterId := Map(newGlyphs.value)];
      mastersLeft := mastersLeft - {masterId};
    }
    MastersDone(kerningData, newData);
    return Some(Map(newData));
  }

  lemma MastersFail(v: Value, master: string)
    requires v.Map? && master in v.fields && CastMaster(v.fields[master]).None?
    ensures KerningTable(v).None?
  {
  }

  lemma MastersDone(v: Value, newData: map<string, Value>)
    requires v.Map? && newData.Keys == v.fields.Keys
    requires forall m :: m in newData ==> CastMaster(v.fields[m]) == Some(newData[m])
    ensures KerningTable(v) == Some(Map(newData))
  {
    assert newData == map m | m in v.fields :: CastMaster(v.fields[m]).value;
  }

  /** The middle loop of `kerning`: one master's left glyphs. */
  method CastLeftGlyphs(glyphs: map<string, Value>) returns (r: Option<map<string, Value>>)
    ensures r == CastGlyphs(glyphs)
  {
    var newGlyphs: map<string, Value> := map[];
    var glyphsLeft := glyphs.Keys;
    while glyphsLeft != {}
      invariant glyphsLeft <= glyphs.Keys
      invariant newGlyphs.Keys == glyphs.Keys - glyphsLeft
      invariant forall g :: g in newGlyphs ==> CastLeft(glyphs[g]) == Some(newGlyphs[g])
      decreases glyphsLeft
    {
      var leftGlyph :| leftGlyph in glyphsLeft;
      if !glyphs[leftGlyph].Map? {
        GlyphsFail(glyphs, leftGlyph);
        return None;
      }
      var newPairs := CastRightGlyphs(glyphs[leftGlyph].fields);
      if newPairs.None? {
        GlyphsFail(glyphs, leftGlyph);
        return None;
      }
      newGlyphs := newGlyphs[leftGlyph := Map(newPairs.value)];
      glyphsLeft := glyphsLeft - {leftGlyph};
    }
    GlyphsDone(glyphs, newGlyphs);
    return Some(newGlyphs);
  }

  lemma GlyphsFail(glyphs: map<string, Value>, left: string)
    requires left in glyphs && CastLeft(glyphs[left]).None?
    ensures CastGlyphs(glyphs).None?
  {
  }

  lemma GlyphsDone(glyphs: map<string, Value>, newGlyphs: map<string, Value>)
    requires newGlyphs.Keys == glyphs.Keys
    requires forall g :: g in newGlyphs ==> CastLeft(glyphs[g]) == Some(newGlyphs[g])
    ensures CastGlyphs(glyphs) == Some(newGlyphs)
  {
    assert newGlyphs == map g | g in glyphs :: CastLeft(glyphs[g]).value;
  }

  /** The inner loop of `kerning`: one left glyph's right glyphs. */
  method CastRightGlyphs(pairs: map<string, Value>) returns (r: Option<map<string, Value>>)
    ensures r == CastPairs(pairs)
  {
    var newPairs: map<string, Value> := map[];
    var pairsLeft := pairs.Keys;
    while pairsLeft != {}
      invariant pairsLeft <= pairs.Keys
      invariant newPairs.Keys == pairs.Keys - pairsLeft
      invariant forall p :: p in newPairs ==> PairValue(pairs[p]) == Some(newPairs[p])
      decreases pairsLeft
    {
      var rightGlyph :| rightGlyph in pairsLeft;
      var value := PairValue(pairs[rightGlyph]);
      if value.None? {
        PairsFail(pairs, rightGlyph);
        return None;
      }
      newPairs := newPairs[rightGlyph := value.value];
      pairsLeft := pairsLeft - {rightGlyph};
    }
    PairsDone(pairs, newPairs);
    return Some(newPairs);
  }

  lemma PairsFail(pairs: map<string, Value>, right: string)
    requires right in pairs && PairValue(pairs[right]).None?
    ensures CastPairs(pairs).None?
  {
  }

  lemma PairsDone(pairs: map<string, Value>, newPairs: map<string, Value>)
    requires newPairs.Keys == pairs.Keys
    requires forall p :: p in newPairs ==> PairValue(pairs[p]) == Some(newPairs[p])
    ensures CastPairs(pairs) == Some(newPairs)
  {
    assert newPairs == map p | p in pairs :: PairValue(pairs[p]).value;
  }

  /** A master's cast glyph level has the same left and right glyphs as the input,
      and each value is the int its text denotes. */
  lemma GlyphsShape(glyphs: map<string, Value>)
    requires CastGlyphs(glyphs).Some?
    ensures var g := CastGlyphs(glyphs).value;
      && g.Keys == glyphs.Keys
      && forall left :: left in glyphs ==>
           && glyphs[left].Map? && g[left].Map?
           && g[left].fields.Keys == glyphs[left].fields.Keys
           && forall right :: right in glyphs[left].fields ==>
                && glyphs[left].fields[right].Str?
                && ParseInt(glyphs[left].fields[right].s).Some?
                && g[left].fields[right] == Int(ParseInt(glyphs[left].fields[right].s).value)
  {
    var g := CastGlyphs(glyphs).value;
    forall left | left in glyphs
      ensures g[left] == Map(CastPairs(glyphs[left].fields).value)
    {
    }
  }

  /** A cast table has exactly the masters, left glyphs and right glyphs of the input,
      and each value is the int its text denotes. */
  lemma KerningShape(v: Value)
    requires KerningTable(v).Some?
    ensures var w := KerningTable(v).value;
      && v.Map? && w.Map? && w.fields.Keys == v.fields.Keys
      && forall master :: master in v.fields ==>
           && v.fields[master].Map? && w.fields[master].Map?
           && CastGlyphs(v.fields[master].fields).Some?
           && w.fields[master].fields == CastGlyphs(v.fields[master].fields).value
  {
  }

  /** One value that is not an integer fails the whole table. */
  lemma KerningBadValue(v: Value, master: string, left: string, right: string)
    requires v.Map? && master in v.fields && v.fields[master].Map?
    requires left in v.fields[master].fields && v.fields[master].fields[left].Map?
    requires right in v.fields[master].fields[left].fields
    requires PairValue(v.fields[master].fields[left].fields[right]).None?
    ensures KerningTable(v).None?
  {
    assert CastLeft(v.fields[master].fields[left]).None?;
    assert CastMaster(v.fields[master]).None?;
  }
}

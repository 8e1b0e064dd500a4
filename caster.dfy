/** `cast_data` and `cast_custom_data`: walking a parsed font document along the type
    hierarchy and replacing each value by what its converter makes of it. */
module Caster {
  import opened Wrappers
  import opened Values
  import opened Numerals
  import opened Converters
  import opened Dates
  import opened Kerning
  import opened Features
  import opened TypeStructure

  /** `cur_type(value)` for a converter leaf of the schema. Each converter's result has
      the type the caster promises: ints, a boolean, numbers, vectors and nodes of the
      right shape, lists as long as the input, a valid date-time, a table with the same
      masters, and feature text no longer than before. */
  function Convert(kind: ConvKind, v: Value): (r: Option<Value>)
    ensures r.Some? && (kind == IntConv || kind == HexIntConv || kind == DescenderConv || kind == VersionMinorConv) ==>
      v.Str? && r.value.Int?
    ensures r.Some? && kind == TruthyConv ==> v.Str? && r.value.Bool?
    ensures r.Some? && kind == NumConv ==> v.Str? && IsNumber(r.value)
    ensures r.Some? && kind == PointConv ==> v.Str? && IsPointValue(r.value)
    ensures r.Some? && kind == TransformConv ==> v.Str? && r.value.List? && |r.value.items| == 6
    ensures r.Some? && kind == NodeConv ==> v.Str? && IsNodeValue(r.value)
    ensures r.Some? && (kind == IntListConv || kind == PointListConv || kind == NodeListConv) ==>
      v.List? && r.value.List? && |r.value.items| == |v.items|
    ensures r.Some? && kind == DatetimeConv ==> v.Str? && r.value.Date? && ValidDateTime(r.value.dt)
    ensures r.Some? && kind == KerningConv ==> v.Map? && r.value.Map? && r.value.fields.Keys == v.fields.Keys
    ensures r.Some? && kind == FeatureSyntaxConv ==> v.Str? && r.value.Str? && |r.value.s| <= |v.s|
  {
    match kind
    case IdentityConv => Some(v)
    case IntConv => if v.Str? then IntOf(v.s) else None
    case TruthyConv => if v.Str? then Truthy(v.s) else None
    case NumConv => if v.Str? then Num(v.s) else None
    case HexIntConv => if v.Str? then HexInt(v.s) else None
    case PointConv => if v.Str? then Point(v.s) else None
    case TransformConv => if v.Str? then Transform(v.s) else None
    case NodeConv => if v.Str? then Node(v.s) else None
    case IntListConv => if v.List? then AsList(IntList(v.items)) else None
    case PointListConv => if v.List? then AsList(PointList(v.items)) else None
    case NodeListConv => if v.List? then AsList(NodeList(v.items)) else None
    case DatetimeConv => if v.Str? then GlyphsDatetime(v.s) else None
    case KerningConv => KerningTable(v)
    case DescenderConv => if v.Str? then DescenderVal(v.s) else None
    case VersionMinorConv => if v.Str? then VersionMinor(v.s) else None
    case FeatureSyntaxConv => if v.Str? then Some(Str(Unescaped(v.s))) else None
  }

  function AsList(items: Option<seq<Value>>): Option<Value> {
    if items.Some? then Some(List(items.value)) else None
  }

  /** The cast of the value under one schema key: a converter's result, or, for a
      nested schema, the list with every record cast. */
  function CastField(ty: Schema, v: Value): (r: Option<Value>)
    ensures r.Some? && ty.Sub? ==> v.List? && r.value.List? && |r.value.items| == |v.items|
    decreases ty, 4
  {
    match ty
    case Conv(kind) => Convert(kind, v)
    case Sub(fields) =>
      if !v.List? then None
      else
        var items :- CastItems(fields, v.items);
        Some(List(items))
  }

  /** Every record of a list cast with the nested schema `types`: as many records as
      before, each a dictionary. */
  function CastItems(types: map<string, Schema>, items: seq<Value>): (r: Option<seq<Value>>)
    ensures r.Some? ==> |r.value| == |items| && forall i :: 0 <= i < |items| ==> r.value[i].Map?
    decreases Sub(types), 3, |items|
  {
    if items == [] then Some([])
    else if !items[0].Map? then None
    else
      match CastRecord(types, items[0].fields)
      case None => None
      case Some(first) =>
        match CastItems(types, items[1..])
        case None => None
        case Some(rest) => Some([Map(first)] + rest)
  }

  /** A list casts exactly when every element is a record that casts, and then each
      element becomes its cast record, in order. */
  lemma {:induction false} CastItemsSpec(types: map<string, Schema>, items: seq<Value>)
    ensures CastItems(types, items).Some? <==>
      forall i :: 0 <= i < |items| ==> items[i].Map? && CastRecord(types, items[i].fields).Some?
    ensures CastItems(types, items).Some? ==> |CastItems(types, items).value| == |items|
    ensures CastItems(types, items).Some? ==> forall i :: 0 <= i < |items| ==>
      CastItems(types, items).value[i] == Map(CastRecord(types, items[i].fields).value)
    decreases |items|
  {
    if items != [] && items[0].Map? && CastRecord(types, items[0].fields).Some? {
      var tail := items[1..];
      CastItemsSpec(types, tail);
      assert forall i :: 1 <= i < |items| ==> items[i] == tail[i - 1];
      if CastItems(types, tail).Some? {
        var first := CastRecord(types, items[0].fields).value;
        assert CastItems(types, items) == Some([Map(first)] + CastItems(types, tail).value);
      } else {
        var j :| 0 <= j < |tail| && !(tail[j].Map? && CastRecord(types, tail[j].fields).Some?);
        assert items[j + 1] == tail[j];
      }
    }
  }

  /** Every schema key present in `data` and among `done` casts successfully. */
  predicate AllCast(types: map<string, Schema>, data: map<string, Value>, done: set<string>)
    decreases Sub(types), 0
  {
    forall k :: k in done && k in types && k in data ==> CastField(types[k], data[k]).Some?
  }

  /** The record once the schema keys in `done` are handled: those present are cast,
      those absent with a default get it, every other key keeps its value. */
  function Handled(types: map<string, Schema>, data: map<string, Value>, done: set<string>): map<string, Value>
    requires AllCast(types, data, done)
    decreases Sub(types), 1
  {
    map k | k in data.Keys + (done * types.Keys * Defaults.Keys) ::
      if k !in data then Int(Defaults[k])
      else if k in done && k in types then CastField(types[k], data[k]).value
      else data[k]
  }

  /** `cast_data(data, types)`: the record cast with `types`, or `None` when a
      converter fails anywhere inside it. It keeps every key of the record and adds the
      schema keys that have a default. */
  function CastRecord(types: map<string, Schema>, data: map<string, Value>): (r: Option<map<string, Value>>)
    ensures r.Some? ==> r.value.Keys == data.Keys + (types.Keys * Defaults.Keys)
    decreases Sub(types), 2
  {
    if AllCast(types, data, types.Keys) then Some(Handled(types, data, types.Keys)) else None
  }

  /** Handling a schema key the record has stores its cast under that key. */
  lemma HandledPresent(types: map<string, Schema>, data: map<string, Value>, done: set<string>, k: string)
    requires AllCast(types, data, done) && k in types && k !in done && k in data
    requires CastField(types[k], data[k]).Some?
    ensures AllCast(types, data, done + {k})
    ensures Handled(types, data, done + {k}) == Handled(types, data, done)[k := CastField(types[k], data[k]).value]
  {
    assert AllCast(types, data, done + {k});
    assert data.Keys + ((done + {k}) * types.Keys * Defaults.Keys) == data.Keys + (done * types.Keys * Defaults.Keys);
  }

  /** A schema key whose value cannot be cast fails the whole record. */
  lemma HandledFail(types: map<string, Schema>, data: map<string, Value>, k: string)
    requires k in types && k in data && CastField(types[k], data[k]).None?
    ensures CastRecord(types, data).None?
  {
  }

  /** Handling a schema key the record lacks stores its default. */
  lemma HandledDefault(types: map<string, Schema>, data: map<string, Value>, done: set<string>, k: string)
    requires AllCast(types, data, done) && k in types && k !in done && k !in data && k in Defaults
    ensures AllCast(types, data, done + {k})
    ensures Handled(types, data, done + {k}) == Handled(types, data, done)[k := Int(Defaults[k])]
  {
  }

  /** Handling a schema key the record lacks and that has no default changes nothing. */
  lemma HandledSkip(types: map<string, Schema>, data: map<string, Value>, done: set<string>, k: string)
    requires AllCast(types, data, done) && k in types && k !in done && k !in data && k !in Defaults
    ensures AllCast(types, data, done + {k})
    ensures Handled(types, data, done + {k}) == Handled(types, data, done)
  {
    assert (done + {k}) * types.Keys * Defaults.Keys == done * types.Keys * Defaults.Keys;
  }
  /** Applies one converter; the kerning table and feature code are rewritten by their
      own loops. */
  method ConvertValue(kind: ConvKind, v: Value) returns (r: Option<Value>)
    ensures r == Convert(kind, v)
  {
    match kind
    case KerningConv =>
      r := CastKerning(v);
    case FeatureSyntaxConv =>
      if v.Str? {
        var text := FeatureSyntax(v.s);
        r := Some(Str(text));
      } else {
        r := None;
      }
    case _ =>
      r := Convert(kind, v);
  }

  /** `cast_data(data, types)`: handles each schema key in turn, writing the default,
      the converter's result or the list of cast records back into the record. */
  method CastData(data: map<string, Value>, types: map<string, Schema>) returns (r: Option<map<string, Value>>)
    ensures r == CastRecord(types, data)
    decreases Sub(types), 1
  {
    var cur := data;
    var todo := types.Keys;
    while todo != {}
      invariant todo <= types.Keys
      invariant AllCast(types, data, types.Keys - todo)
      invariant cur == Handled(types, data, types.Keys - todo)
      decreases todo
    {
      var key :| key in todo;
      var done := types.Keys - todo;
      assert types.Keys - (todo - {key}) == done + {key};
      if key !in data {
        if key in Defaults {
          HandledDefault(types, data, done, key);
          cur := cur[key := Int(Defaults[key])];
        } else {
          HandledSkip(types, data, done, key);
        }
      } else {
        assert cur[key] == data[key];
        var value := CastKey(types[key], data[key], types);
        if value.None? {
          HandledFail(types, data, key);
          return None;
        }
        HandledPresent(types, data, done, key);
        cur := cur[key := value.value];
      }
      todo := todo - {key};
    }
    assert types.Keys - todo == types.Keys;
    return Some(cur);
  }

  /** `data[key]` under its schema entry: a converter, or, for a nested schema, every
      record of the list cast in place by a recursive `cast_data`. */
  method CastKey(ty: Schema, v: Value, ghost parent: map<string, Schema>) returns (r: Option<Value>)
    requires ty < Sub(parent)
    ensures r == CastField(ty, v)
    decreases Sub(parent), 0
  {
    match ty
    case Conv(kind) =>
      r := ConvertValue(kind, v);
    case Sub(fields) =>
      if !v.List? {
        return None;
      }
      var items := CastRecords(fields, v.items);
      if items.None? {
        return None;
      }
      r := Some(List(items.value));
  }

  /** The loop of `cast_data` over the records of a list-valued key: each record is
      cast with the nested schema and stored back at its index. */
  method CastRecords(types: map<string, Schema>, records: seq<Value>) returns (r: Option<seq<Value>>)
    ensures r == CastItems(types, records)
    decreases Sub(types), 2
  {
    var items := records;
    var i := 0;
    while i < |items|
      invariant 0 <= i <= |items| && |items| == |records|
      invariant forall j :: 0 <= j < i ==> records[j].Map? && CastRecord(types, records[j].fields).Some?
      invariant forall j :: 0 <= j < i ==> items[j] == Map(CastRecord(types, records[j].fields).value)
      invariant items[i..] == records[i..]
    {
      assert items[i] == records[i];
      if !items[i].Map? {
        ItemsFail(types, records, i);
        return None;
      }
      var record := CastData(items[i].fields, types);
      if record.None? {
        ItemsFail(types, records, i);
        return None;
      }
      items := items[i := Map(record.value)];
      i := i + 1;
    }
    ItemsDone(types, records, items);
    return Some(items);
  }

  lemma ItemsFail(types: map<string, Schema>, records: seq<Value>, i: nat)
    requires i < |records| && !(records[i].Map? && CastRecord(types, records[i].fields).Some?)
    ensures CastItems(types, records).None?
  {
    CastItemsSpec(types, records);
  }

  lemma ItemsDone(types: map<string, Schema>, records: seq<Value>, items: seq<Value>)
    requires |items| == |records|
    requires forall j :: 0 <= j < |records| ==> records[j].Map? && CastRecord(types, records[j].fields).Some?
    requires forall j :: 0 <= j < |records| ==> items[j] == Map(CastRecord(types, records[j].fields).value)
    ensures CastItems(types, records) == Some(items)
  {
    CastItemsSpec(types, records);
    assert CastItems(types, records).Some?;
    var cast := CastItems(types, records).value;
    assert |cast| == |items|;
    assert forall j :: 0 <= j < |items| ==> cast[j] == items[j];
    assert cast == items;
  }

  /** `cast_data(data)` with no schema given: the whole document under
      `get_type_structure()`. */
  method CastDocument(data: map<string, Value>) returns (r: Option<map<string, Value>>)
    ensures r == CastRecord(Root, data)
  {
    r := CastData(data, Root);
  }

  /** What a successful cast does to each key of a record: the keys are those of the
      input plus the schema keys with a default; an absent key with a default gets it;
      a key outside the schema keeps its value; a converter key holds what its converter
      makes of the old value; a nested-schema key holds a list of the same length whose
      records are each cast recursively. */
  lemma CastRecordEffect(types: map<string, Schema>, data: map<string, Value>)
    requires CastRecord(types, data).Some?
    ensures var r := CastRecord(types, data).value;
      && r.Keys == data.Keys + (types.Keys * Defaults.Keys)
      && (forall k :: k in types && k !in data && k in Defaults ==> r[k] == Int(Defaults[k]))
      && (forall k :: k in data && k !in types ==> r[k] == data[k])
      && (forall k :: k in data && k in types && types[k].Conv? ==> Convert(types[k].kind, data[k]) == Some(r[k]))
      && (forall k :: k in data && k in types && types[k].Sub? ==>
            && data[k].List? && r[k].List? && |r[k].items| == |data[k].items|
            && forall i :: 0 <= i < |data[k].items| ==>
                 && data[k].items[i].Map?
                 && CastRecord(types[k].fields, data[k].items[i].fields).Some?
                 && r[k].items[i] == Map(CastRecord(types[k].fields, data[k].items[i].fields).value))
  {
    var r := CastRecord(types, data).value;
    forall k | k in data && k in types && types[k].Conv?
      ensures Convert(types[k].kind, data[k]) == Some(r[k])
    {
      assert CastField(types[k], data[k]) == Convert(types[k].kind, data[k]);
    }
    forall k | k in data && k in types && types[k].Sub?
      ensures data[k].List? && r[k].List? && |r[k].items| == |data[k].items|
      ensures forall i :: 0 <= i < |data[k].items| ==>
                 && data[k].items[i].Map?
                 && CastRecord(types[k].fields, data[k].items[i].fields).Some?
                 && r[k].items[i] == Map(CastRecord(types[k].fields, data[k].items[i].fields).value)
    {
      assert CastField(types[k], data[k]).Some?;
      CastItemsSpec(types[k].fields, data[k].items);
    }
  }

  /** The cast fails exactly when the value under some schema key the record has cannot
      be cast. */
  lemma CastRecordFailure(types: map<string, Schema>, data: map<string, Value>)
    ensures CastRecord(types, data).None? <==>
      exists k :: k in types && k in data && CastField(types[k], data[k]).None?
  {
  }

  /** A schema key with a default that the record lacks gets the default. */
  lemma RecordDefault(types: map<string, Schema>, data: map<string, Value>, k: string)
    requires CastRecord(types, data).Some?
    requires k in types && k !in data && k in Defaults
    ensures k in CastRecord(types, data).value
    ensures CastRecord(types, data).value[k] == Int(Defaults[k])
  {
    CastRecordEffect(types, data);
  }

  /** A master without `weightValue` or `widthValue` gets 100 for it. */
  lemma MasterWeightsDefault(master: map<string, Value>)
    requires CastRecord(FontMasterSchema.fields, master).Some?
    ensures var m := CastRecord(FontMasterSchema.fields, master).value;
      && ("weightValue" !in master ==> "weightValue" in m && m["weightValue"] == Int(100))
      && ("widthValue" !in master ==> "widthValue" in m && m["widthValue"] == Int(100))
  {
    DefaultsAreIntFields();
    assert Defaults["weightValue"] == 100 && Defaults["widthValue"] == 100;
    if "weightValue" !in master {
      RecordDefault(FontMasterSchema.fields, master, "weightValue");
    }
    if "widthValue" !in master {
      RecordDefault(FontMasterSchema.fields, master, "widthValue");
    }
  }

  /** An instance without `interpolationWeight` or `interpolationWidth` gets 100 for it. */
  lemma InstanceWeightsDefault(instance: map<string, Value>)
    requires CastRecord(InstancesSchema.fields, instance).Some?
    ensures var i := CastRecord(InstancesSchema.fields, instance).value;
      && ("interpolationWeight" !in instance ==> "interpolationWeight" in i && i["interpolationWeight"] == Int(100))
      && ("interpolationWidth" !in instance ==> "interpolationWidth" in i && i["interpolationWidth"] == Int(100))
  {
    DefaultsAreIntFields();
    assert Defaults["interpolationWeight"] == 100 && Defaults["interpolationWidth"] == 100;
    if "interpolationWeight" !in instance {
      RecordDefault(InstancesSchema.fields, instance, "interpolationWeight");
    }
    if "interpolationWidth" !in instance {
      RecordDefault(InstancesSchema.fields, instance, "interpolationWidth");
    }
  }

  /** Casting is single-pass: once an anchor's `position` has been cast to a list of
      numbers, casting the anchor again fails, because `point` expects text. */
  lemma AnchorCastsOnce(anchor: map<string, Value>)
    requires "position" in anchor && CastRecord(AnchorsSchema.fields, anchor).Some?
    ensures CastRecord(AnchorsSchema.fields, CastRecord(AnchorsSchema.fields, anchor).value).None?
  {
    var types := AnchorsSchema.fields;
    CastRecordEffect(types, anchor);
    var cast := CastRecord(types, anchor).value;
    assert types["position"] == Conv(PointConv);
    assert cast["position"].List?;
    CastRecordFailure(types, cast);
    assert CastField(types["position"], cast["position"]).None?;
  }

  const OS2Type := Str("openTypeOS2Type")

  /** One custom parameter: a dictionary with a `name`; for `openTypeOS2Type` its
      `value` list becomes a list of ints. Only that `value` can change. */
  function CastParameter(p: Value): (r: Option<Value>)
    ensures r.Some? ==> p.Map? && "name" in p.fields && r.value.Map? && r.value.fields.Keys == p.fields.Keys
    ensures r.Some? ==> forall k :: k in p.fields && k != "value" ==> r.value.fields[k] == p.fields[k]
    ensures r.Some? && p.fields["name"] != OS2Type ==> r.value == p
  {
    if !p.Map? || "name" !in p.fields then None
    else if p.fields["name"] != OS2Type then Some(p)
    else if "value" !in p.fields || !p.fields["value"].List? then None
    else
      match IntList(p.fields["value"].items)
      case None => None
      case Some(ints) => Some(Map(p.fields["value" := List(ints)]))
  }

  /** Every custom parameter of a list cast. */
  function CastParameters(params: seq<Value>): (r: Option<seq<Value>>)
    ensures r.Some? <==> forall i :: 0 <= i < |params| ==> CastParameter(params[i]).Some?
    ensures r.Some? ==> |r.value| == |params|
    ensures r.Some? ==> forall i :: 0 <= i < |params| ==> r.value[i] == CastParameter(params[i]).value
  {
    if params == [] then Some([])
    else
      match CastParameter(params[0])
      case None => None
      case Some(first) =>
        match CastParameters(params[1..])
        case None => None
        case Some(rest) =>
          assert forall i :: 1 <= i < |params| ==> params[i] == params[1..][i - 1];
          Some([first] + rest)
  }

  /** `cast_custom_data(data)`: the document with its custom parameters cast; no other
      key changes. */
  function CastCustom(data: map<string, Value>): (r: Option<map<string, Value>>)
    ensures r.Some? ==> r.value.Keys == data.Keys
    ensures r.Some? ==> forall k :: k in data && k != "customParameters" ==> r.value[k] == data[k]
  {
    if "customParameters" !in data || !data["customParameters"].List? then None
    else
      match CastParameters(data["customParameters"].items)
      case None => None
      case Some(params) => Some(data["customParameters" := List(params)])
  }

  /** `cast_custom_data(data)`: rewrites the value of each `openTypeOS2Type` parameter
      in place. */
  method CastCustomData(data: map<string, Value>) returns (r: Option<map<string, Value>>)
    ensures r == CastCustom(data)
  {
    if "customParameters" !in data || !data["customParameters"].List? {
      return None;
    }
    var params := data["customParameters"].items;
    ghost var original := params;
    var i := 0;
    while i < |params|
      invariant 0 <= i <= |params| && |params| == |original|
      invariant forall j :: 0 <= j < i ==> CastParameter(original[j]).Some?
      invariant forall j :: 0 <= j < i ==> params[j] == CastParameter(original[j]).value
      invariant params[i..] == original[i..]
    {
      assert params[i] == original[i];
      var param := params[i];
      if !param.Map? || "name" !in param.fields {
        return None;
      }
      if param.fields["name"] == OS2Type {
        if "value" !in param.fields || !param.fields["value"].List? {
          return None;
        }
        var ints := IntList(param.fields["value"].items);
        if ints.None? {
          return None;
        }
        params := params[i := Map(param.fields["value" := List(ints.value)])];
      }
      i := i + 1;
    }
    var cast := CastParameters(original);
    assert cast.Some? && cast.value == params;
    return Some(data["customParameters" := List(params)]);
  }

  /** Only the `value` of parameters named `openTypeOS2Type` changes: it becomes the
      ints its strings denote, in the same order. Every other parameter, and every other
      key of the document, is left as it was. */
  lemma CastCustomEffect(data: map<string, Value>)
    requires CastCustom(data).Some?
    ensures var r := CastCustom(data).value;
      && r.Keys == data.Keys
      && (forall k :: k in data && k != "customParameters" ==> r[k] == data[k])
      && data["customParameters"].List? && r["customParameters"].List?
      && var before, after := data["customParameters"].items, r["customParameters"].items;
      && |after| == |before|
      && forall i :: 0 <= i < |before| ==>
           && before[i].Map? && "name" in before[i].fields && after[i].Map?
           && (before[i].fields["name"] != OS2Type ==> after[i] == before[i])
           && (before[i].fields["name"] == OS2Type ==>
                 && "value" in before[i].fields && before[i].fields["value"].List?
                 && var old_values := before[i].fields["value"].items;
                 && after[i].fields.Keys == before[i].fields.Keys
                 && (forall k :: k in before[i].fields && k != "value" ==> after[i].fields[k] == before[i].fields[k])
                 && after[i].fields["value"].List?
                 && |after[i].fields["value"].items| == |old_values|
                 && forall j :: 0 <= j < |old_values| ==>
                      && old_values[j].Str? && ParseInt(old_values[j].s).Some?
                      && after[i].fields["value"].items[j] == Int(ParseInt(old_values[j].s).value))
  {
  }
}

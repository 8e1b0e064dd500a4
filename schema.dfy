/** `DEFAULTS` and `get_type_structure`: the type hierarchy the caster walks. */
module TypeStructure {

  /** The converter a schema leaf names. The builtins `str`, `list` and `dict` and the
      `default` converter leave a parsed value as it is (`IdentityConv`). */
  datatype ConvKind =
    | IdentityConv
    | IntConv
    | TruthyConv
    | NumConv
    | HexIntConv
    | PointConv
    | TransformConv
    | NodeConv
    | IntListConv
    | PointListConv
    | NodeListConv
    | DatetimeConv
    | KerningConv
    | DescenderConv
    | VersionMinorConv
    | FeatureSyntaxConv

  /** A schema entry: a converter, or a nested dictionary describing the records of a
      list. */
  datatype Schema = Conv(kind: ConvKind) | Sub(fields: map<string, Schema>)

  /** Values written for keys the schema names but the data lacks. */
  const Defaults: map<string, int> := map[
    "interpolationWeight" := 100,
    "interpolationWidth" := 100,
    "widthValue" := 100,
    "weightValue" := 100]

  const StrType := Conv(IdentityConv)
  const DefaultType := Conv(IdentityConv)
  const IntType := Conv(IntConv)
  const TruthyType := Conv(TruthyConv)
  const FeatureSyntaxType := Conv(FeatureSyntaxConv)

  /** Name and value of a custom parameter. */
  const CustomParametersSchema := Sub(map["name" := StrType, "value" := DefaultType])

  const ClassesSchema := Sub(map["automatic" := TruthyType, "code" := FeatureSyntaxType, "name" := StrType])

  const FeaturePrefixesSchema := Sub(map["code" := FeatureSyntaxType, "name" := StrType])

  const FeaturesSchema := Sub(map[
    "automatic" := TruthyType,
    "code" := FeatureSyntaxType,
    "disabled" := TruthyType,
    "name" := StrType,
    "notes" := FeatureSyntaxType])

  const FontMasterSchema := Sub(map[
    "alignmentZones" := Conv(PointListConv),
    "ascender" := IntType,
    "capHeight" := IntType,
    "customParameters" := CustomParametersSchema,
    "descender" := Conv(DescenderConv),
    "horizontalStems" := Conv(IntListConv),
    "id" := StrType,
    "userData" := Conv(IdentityConv),
    "verticalStems" := Conv(IntListConv),
    "weight" := StrType,
    "weightValue" := IntType,
    "width" := StrType,
    "widthValue" := IntType,
    "xHeight" := IntType])

  const AnchorsSchema := Sub(map["name" := StrType, "position" := Conv(PointConv)])

  const ComponentsSchema := Sub(map[
    "anchor" := StrType,
    "disableAlignment" := TruthyType,
    "locked" := TruthyType,
    "name" := StrType,
    "transform" := Conv(TransformConv)])

  const PathsSchema := Sub(map["closed" := TruthyType, "nodes" := Conv(NodeListConv)])

  const LayersSchema := Sub(map[
    "anchors" := AnchorsSchema,
    "annotations" := DefaultType,
    "associatedMasterId" := StrType,
    "background" := DefaultType,
    "components" := ComponentsSchema,
    "guideLines" := DefaultType,
    "hints" := DefaultType,
    "layerId" := StrType,
    "leftMetricsKey" := StrType,
    "rightMetricsKey" := StrType,
    "name" := StrType,
    "paths" := PathsSchema,
    "width" := Conv(NumConv)])

  const GlyphsSchema := Sub(map[
    "glyphname" := StrType,
    "lastChange" := Conv(DatetimeConv),
    "layers" := LayersSchema,
    "leftKerningGroup" := StrType,
    "leftMetricsKey" := StrType,
    "rightKerningGroup" := StrType,
    "rightMetricsKey" := StrType,
    "unicode" := Conv(HexIntConv),
    "widthMetricsKey" := StrType])

  const InstancesSchema := Sub(map[
    "customParameters" := CustomParametersSchema,
    "interpolationWeight" := IntType,
    "interpolationWidth" := IntType,
    "name" := StrType,
    "weightClass" := StrType,
    "widthClass" := StrType])

  /** `get_type_structure()`: the schema of a whole font document. */
  const Root: map<string, Schema> := map[
    "DisplayStrings" := Conv(IdentityConv),
    "classes" := ClassesSchema,
    "copyright" := StrType,
    "customParameters" := CustomParametersSchema,
    "date" := Conv(DatetimeConv),
    "designer" := StrType,
    "designerURL" := StrType,
    "disablesAutomaticAlignment" := TruthyType,
    "disablesNiceNames" := TruthyType,
    "familyName" := StrType,
    "featurePrefixes" := FeaturePrefixesSchema,
    "features" := FeaturesSchema,
    "fontMaster" := FontMasterSchema,
    "glyphs" := GlyphsSchema,
    "instances" := InstancesSchema,
    "kerning" := Conv(KerningConv),
    "manufacturer" := StrType,
    "manufacturerURL" := StrType,
    "unitsPerEm" := IntType,
    "userData" := Conv(IdentityConv),
    "versionMajor" := IntType,
    "versionMinor" := Conv(VersionMinorConv)]

  /** Every key with a default is an `int` field of a master or an instance. */
  lemma DefaultsAreIntFields()
    ensures "weightValue" in FontMasterSchema.fields && FontMasterSchema.fields["weightValue"] == IntType
    ensures "widthValue" in FontMasterSchema.fields && FontMasterSchema.fields["widthValue"] == IntType
    ensures "interpolationWeight" in InstancesSchema.fields && InstancesSchema.fields["interpolationWeight"] == IntType
    ensures "interpolationWidth" in InstancesSchema.fields && InstancesSchema.fields["interpolationWidth"] == IntType
  {
  }
}

# glyphs2ufo casting, modelled in Dafny

This project models the caster of glyphs2ufo (`Lib/glyphs2ufo/casting.py`). The caster turns
the string-valued tree that the Glyphs parser produces into typed values. A fixed type
structure says, for every known key of the font document, one of two things:

- a converter such as `int`, `truthy`, `point`, `node`, `glyphs_datetime` or `kerning`;
- a nested type structure for a list of records.

`cast_data` walks the document together with that structure. For each schema key it does one of four things:

- it fills in the default weights and widths (`DEFAULTS`, all 100) when the key is absent;
- it leaves any other absent key absent;
- it recurses into the records of nested lists;
- it replaces every other present value with its converter's result.

`cast_custom_data` is a second pass. It turns the `value` of each `openTypeOS2Type` custom parameter into a list of ints.

Modules:

- `Values`: the dynamic values of the tree. Text, int, exact real, bool, `None`, date-time, dictionary and list.
- `Numerals`: the text forms that `int(s)`, `int(s, 16)` and `float(s)` accept, with their exact values. They come with decimal and hexadecimal rendering and round trips.
- `Patterns`: hand-written matchers for the two regular expressions (`vector` and `node`). Each is proved sound and complete against a rendering function, and a vector of the wrong arity is proved to fail.
- `Converters`: `truthy`, `num`, `hex_int`, `vector`/`point`/`transform`, `node`, the three list converters, `descender_val` and `version_minor`.
- `Dates`: `glyphs_datetime` (cut at the last space, then `%Y-%m-%d %H:%M:%S`).
- `Features`: `feature_syntax`, with its loop over the six replacements.
- `Kerning`: `kerning`, with its three nested loops.
- `TypeStructure`: `DEFAULTS` and `get_type_structure()` as constants.
- `Caster`:
  - the converter dispatch;
  - `cast_data` as a method that loops over the schema keys, proved equal to the function `CastRecord`;
  - `cast_custom_data`;
  - what a cast does to every key.
- `Samples`: worked examples derived from the general lemmas. They cover `int("007")`, `int("+5")`, `int("-12")`, `hex_int("00C5")`, `num("2.5")`, `num("1e2")`, `float("25e-1")`, `num("10.5")`, `vector("{1, 2.5}", 2)`, `point("{1,2,3}")`, `node("100 200 LINE")`, `node("10.5 20 CURVE SMOOTH")`, `descender_val`, `version_minor`, a one-entry kerning table, and `feature_syntax` on curly quotes.

Failure is `None` throughout. Python raises (a `ValueError`, an `AttributeError` when the regular expression does not match, an `AssertionError`, a `KeyError`), and the caster lets every exception propagate. So the model's contract is "the whole cast fails".

## Model

| member | source | states |
|---|---|---|
| TypeStructure.DefaultsAreIntFields | Lib/glyphs2ufo/casting.py:26-30 | the four keys of `DEFAULTS` are fields the type structure casts with `int`: `weightValue` and `widthValue` of a master, `interpolationWeight` and `interpolationWidth` of an instance |
| Numerals.ParseInt | Lib/glyphs2ufo/casting.py:251 | `int(s)` succeeds only on non-empty text whose first character is a digit or a sign and whose later characters are all digits; a negative result comes from a leading `-` |
| Numerals.ParseIntAccepts | Lib/glyphs2ufo/casting.py:251 | `int(s)` succeeds if and only if the text is one or more digits with an optional `+` or `-` in front |
| Numerals.ParseIntOfDigits | Lib/glyphs2ufo/casting.py:251 | any digit run, leading zeros included, reads as the number it spells, and so does it behind `+`, or behind `-` as its negation |
| Numerals.ParseIntOfSplit | Lib/glyphs2ufo/casting.py:251 | text whose part after the sign is a digit run reads as that run's value with the sign applied |
| Numerals.IntRoundTrip | Lib/glyphs2ufo/casting.py:251 | `int` of the decimal text of any integer is that integer |
| Numerals.ToDigitsValue | Lib/glyphs2ufo/casting.py:190-192 | the digits of `n` in any base 2..16 denote `n` |
| Numerals.HexRoundTrip | Lib/glyphs2ufo/casting.py:190-192 | `int(s, 16)` of the hexadecimal text of `n` is `n` |
| Numerals.DigitsSnoc | Lib/glyphs2ufo/casting.py:190-192 | appending a digit to a digit run multiplies its value by the base and adds the digit |
| Numerals.ParseHex | Lib/glyphs2ufo/casting.py:192 | `int(s, 16)` fails on empty text, and a negative result comes only from a leading `-` |
| Numerals.ParseHexAccepts | Lib/glyphs2ufo/casting.py:192 | `int(s, 16)` succeeds if and only if the text is an optional `+` or `-`, an optional `0x` or `0X`, then one or more hexadecimal digits of either case |
| Numerals.HexOfDigits | Lib/glyphs2ufo/casting.py:190-192 | any run of hexadecimal digits, leading zeros included and with or without `0x`, reads as the number it spells in base 16 |
| Numerals.DigitsAppend | Lib/glyphs2ufo/casting.py:185-187 | the value of two digit runs written one after the other is the first scaled by ten to the length of the second, plus the second |
| Numerals.DecimalOfInt | Lib/glyphs2ufo/casting.py:182-187 | `float` of the decimal text of an integer is exactly that integer |
| Numerals.DecimalOfDigits | Lib/glyphs2ufo/casting.py:182-187 | a signed run of digits reads under `float` as the signed integer it spells |
| Numerals.ParseDecimal | Lib/glyphs2ufo/casting.py:185 | `float` fails on empty text, and a negative result comes only from a leading `-` |
| Numerals.DecimalAccepts | Lib/glyphs2ufo/casting.py:185 | `float(s)` succeeds if and only if the text is an optional sign, then digits with at most one point and at least one digit (`12`, `12.`, `12.5`, `.5`), then optionally `e` or `E` followed by text `int` reads |
| Numerals.UnsignedSound | Lib/glyphs2ufo/casting.py:185 | unsigned text `float` reads is a mantissa, optionally followed by an exponent marker and integer text |
| Numerals.UnsignedComplete | Lib/glyphs2ufo/casting.py:185 | every mantissa, with or without an exponent marker and integer text after it, is read by `float` |
| Numerals.MantissaAccepts | Lib/glyphs2ufo/casting.py:185 | the part before the exponent has a value exactly when it is digits with at most one point and at least one digit, whatever the exponent |
| Numerals.DecimalOfText | Lib/glyphs2ufo/casting.py:185 | `float` of decimal text `W.F` (also `W.` and `.F`) is `W + F / 10^len(F)`, stated through the digit-by-digit `PointValue` |
| Numerals.DecimalNegated | Lib/glyphs2ufo/casting.py:185 | `float` of `-t` is the negation of `float(t)`, and fails exactly when `float(t)` does |
| Numerals.ExponentSplit | Lib/glyphs2ufo/casting.py:185 | after a mantissa without an exponent marker, `e` or `E` and exponent text, `float` scales the mantissa by the exponent `int` reads there, and fails when `int` reads none |
| Numerals.DecimalOfExponent | Lib/glyphs2ufo/casting.py:185 | `float` of digits `D` followed by `e` or `E` and exponent text reading as `K` is `D * 10^K`, and fails when the exponent text is not an integer |
| Numerals.DecimalOfPointExponent | Lib/glyphs2ufo/casting.py:185 | `float` of `W.F` followed by an exponent `K` is the digits of `W` and `F` read together times `10^(K - len(F))`, and fails when the exponent text is not an integer |
| Numerals.MagnitudeOfDigits | Lib/glyphs2ufo/casting.py:185 | a digit run under exponent `K` has the value of its digits times `10^K` |
| Numerals.MagnitudeSplit | Lib/glyphs2ufo/casting.py:185 | `W.F` under exponent `K` has the value of the digits of `W` and `F` read together times `10^(K - len(F))` |
| Numerals.ScalePoint | Lib/glyphs2ufo/casting.py:185 | the digits of `W` and `F` read together and scaled down by `len(F)` places give the value written `W.F` |
| Numerals.PointValueSum | Lib/glyphs2ufo/casting.py:185 | the value written `W.F` is the whole part plus the fraction digits over ten to their count |
| Numerals.PadOfDigits | Lib/glyphs2ufo/casting.py:232 | digits read as a number and padded back to their own width give the same digits |
| Converters.IntOf | Lib/glyphs2ufo/casting.py:218-219 | the `int` converter succeeds exactly when `int(s)` parses, and gives that integer |
| Converters.Truthy | Lib/glyphs2ufo/casting.py:177-179 | `truthy` succeeds exactly when `int` parses the text, and gives whether that integer is nonzero |
| Converters.TruthyOfInt | Lib/glyphs2ufo/casting.py:177-179 | `truthy` of the text of `n` is `n != 0` |
| Converters.Num | Lib/glyphs2ufo/casting.py:182-187 | `num` succeeds exactly when `float` parses the text; it gives a number whose value is what `float` reads (an int when that is integral) |
| Converters.NumOfInt | Lib/glyphs2ufo/casting.py:182-187 | `num` of an integer's text is that int, not a float |
| Converters.NumOfText | Lib/glyphs2ufo/casting.py:182-187 | `num` of `W.F` is the int `W` when the fraction digits are all zero, and otherwise the float `W + F / 10^len(F)` |
| Converters.PointFloor | Lib/glyphs2ufo/casting.py:186-187 | the integer part of `W.F` is `W`, and `W.F` equals `W` exactly when its fraction digits are all zero |
| Converters.FloorOfFraction | Lib/glyphs2ufo/casting.py:186-187 | a whole part plus a proper fraction has that whole part as its floor, and differs from it exactly when the fraction is nonzero |
| Converters.HexInt | Lib/glyphs2ufo/casting.py:190-192 | `hex_int` succeeds exactly when `int(s, 16)` parses the text, and gives that integer |
| Converters.HexIntOf | Lib/glyphs2ufo/casting.py:190-192 | `hex_int` of the hexadecimal text of `n` is `n` |
| Converters.NumAll | Lib/glyphs2ufo/casting.py:199 | `num` applied to every captured group: succeeds exactly when each succeeds, same length, each element is that group's `num` |
| Converters.Vector | Lib/glyphs2ufo/casting.py:195-199 | a successful `vector(s, d)` is a list of exactly `d` numbers |
| Converters.Point | Lib/glyphs2ufo/casting.py:202-203 | a successful `point` is a list of two numbers |
| Converters.Transform | Lib/glyphs2ufo/casting.py:206-207 | a successful `transform` is a list of six numbers |
| Converters.VectorOf | Lib/glyphs2ufo/casting.py:195-199 | a rendered `{t1, ..., td}` followed by any text reads back under `vector(_, d)` as the numbers of its tokens |
| Converters.VectorWrongArity | Lib/glyphs2ufo/casting.py:195-207 | a rendered vector of `k` tokens read with any other dimension fails, so `point` rejects three numbers and `transform` rejects two |
| Converters.Node | Lib/glyphs2ufo/casting.py:210-215 | a successful `node` is `[x, y, type, flag]`: two numbers, a type among LINE, CURVE and OFFCURVE, and `"SMOOTH"` or `None` |
| Converters.NodeOf | Lib/glyphs2ufo/casting.py:215 | the node built from the groups exists exactly when both coordinates parse under `num`, and is `[num(x), num(y), type, "SMOOTH" or None]` |
| Converters.NodeOfRendered | Lib/glyphs2ufo/casting.py:210-215 | a rendered node line followed by any text (that does not itself add ` SMOOTH`) reads back as its groups |
| Converters.Elementwise | Lib/glyphs2ufo/casting.py:218-227 | `map(f, items)` succeeds exactly when every element is text on which `f` succeeds; same length and order |
| Converters.IntList | Lib/glyphs2ufo/casting.py:218-219 | `intlist` succeeds exactly when every element is text that `int` parses; then element by element, in order, it is that int |
| Converters.PointList | Lib/glyphs2ufo/casting.py:222-223 | `pointlist` succeeds exactly when every element is text that `point` parses; then it has as many elements, each a pair of numbers |
| Converters.NodeList | Lib/glyphs2ufo/casting.py:226-227 | `nodelist` succeeds exactly when every element is text that `node` parses; then it has as many elements, each a node |
| Converters.DescenderVal | Lib/glyphs2ufo/casting.py:248-253 | `descender_val` succeeds exactly when `int` parses the text and the integer is negative, and gives it |
| Converters.DescenderOfInt | Lib/glyphs2ufo/casting.py:248-253 | on the text of `n`, `descender_val` gives `n` when `n < 0` and fails otherwise |
| Converters.VersionMinor | Lib/glyphs2ufo/casting.py:256-261 | `version_minor` succeeds exactly when `int` parses the text and the integer is in 0..999 |
| Converters.VersionMinorOfInt | Lib/glyphs2ufo/casting.py:256-261 | on the text of `n`, `version_minor` gives `n` when `0 <= n <= 999` and fails otherwise |
| Patterns.TokenLength | Lib/glyphs2ufo/casting.py:198 | the greedy `[-.e\d]+` takes exactly the leading run of token characters |
| Patterns.MatchFieldsSound | Lib/glyphs2ufo/casting.py:198-199 | a match of the fields gives `d` tokens whose rendering, closed by `}`, begins the text |
| Patterns.MatchFieldsComplete | Lib/glyphs2ufo/casting.py:198-199 | rendered tokens followed by `}` and any text match with exactly those tokens |
| Patterns.MatchFields | Lib/glyphs2ufo/casting.py:198-199 | the fields `([-.e\d]+), ...}` after the brace, when they match, capture exactly `d` groups, each a non-empty token |
| Patterns.MatchVector | Lib/glyphs2ufo/casting.py:198-199 | a vector match captures exactly `d` groups, each a token of `[-.e\d]+` |
| Patterns.MatchVectorSound | Lib/glyphs2ufo/casting.py:198-199 | a vector match gives `d` tokens and the text begins with their rendering `{t1, ..., td}` |
| Patterns.MatchVectorComplete | Lib/glyphs2ufo/casting.py:198-199 | a rendering followed by anything matches, giving its tokens (`re.match` anchors only at the start) |
| Patterns.MatchVectorWrongArity | Lib/glyphs2ufo/casting.py:198-199 | a rendering of `k` tokens never matches the pattern for another dimension |
| Patterns.MatchFieldsWrongArity | Lib/glyphs2ufo/casting.py:198-199 | fields rendered from `k` tokens fail to match `d != k` fields |
| Patterns.NodeType | Lib/glyphs2ufo/casting.py:213 | the alternation takes LINE, CURVE or OFFCURVE, a prefix of the remaining text |
| Patterns.TokenThenSpace | Lib/glyphs2ufo/casting.py:213 | a `([-.e\d]+) ` group, when it matches, splits the text into a token, one space and the rest |
| Patterns.TokenThenSpaceComplete | Lib/glyphs2ufo/casting.py:213 | a token, a space and any rest match as that token and rest |
| Patterns.MatchNode | Lib/glyphs2ufo/casting.py:213-214 | a node match captures two tokens and a type among LINE, CURVE and OFFCURVE |
| Patterns.MatchNodeSplit | Lib/glyphs2ufo/casting.py:213-214 | a node match consumes `x y TYPE` at the start of the text; the optional group is present exactly when ` SMOOTH` follows |
| Patterns.MatchNodeSound | Lib/glyphs2ufo/casting.py:213-214 | a node match is valid and its rendering begins the text; a missing ` SMOOTH` group means none followed |
| Patterns.MatchNodeComplete | Lib/glyphs2ufo/casting.py:213-214 | a valid node rendering followed by any text (not adding ` SMOOTH`) matches with its own groups |
| Dates.LastSpace | Lib/glyphs2ufo/casting.py:232 | `rfind(' ')` is the index of the last space, or -1 when there is none |
| Dates.BeforeLastSpace | Lib/glyphs2ufo/casting.py:232 | `string[:string.rfind(' ')]` is a prefix of the text |
| Dates.CutsZone | Lib/glyphs2ufo/casting.py:232 | the slice removes exactly the final space-separated zone |
| Dates.CutsLastCharacter | Lib/glyphs2ufo/casting.py:232 | with no space, index -1 drops only the last character |
| Dates.ParseDateTime | Lib/glyphs2ufo/casting.py:232 | `strptime` with `%Y-%m-%d %H:%M:%S`, read in the full-width form Glyphs writes, succeeds only on 19 characters and gives a valid calendar date-time |
| Dates.GlyphsDatetime | Lib/glyphs2ufo/casting.py:230-232 | `glyphs_datetime` succeeds exactly when the text before the last space parses under `strptime`, and gives that valid date-time |
| Numerals.PadValue | Lib/glyphs2ufo/casting.py:232 | a number padded to a width that holds it reads back as that number |
| Dates.DateTimeRoundTrip | Lib/glyphs2ufo/casting.py:232 | `strptime` of the formatted text of any valid date-time gives that date-time |
| Dates.FormatOfParse | Lib/glyphs2ufo/casting.py:232 | text that parses is exactly the text written for the date-time it parses as, so parsing is one-to-one |
| Dates.LaidOfParse | Lib/glyphs2ufo/casting.py:232 | each field of text that parses is its value padded to the field's width |
| Dates.GlyphsDatetimeRoundTrip | Lib/glyphs2ufo/casting.py:230-232 | a date written `YYYY-MM-DD HH:MM:SS zone`, with any zone that contains no space, reads back as that date-time |
| Features.FeatureSyntax | Lib/glyphs2ufo/casting.py:264-275 | the replacement loop computes the six `str.replace` calls in order |
| Features.ReplaceAll | Lib/glyphs2ufo/casting.py:273-274 | `replace` with a replacement no longer than the pattern never lengthens the text |
| Features.UnescapedUpTo | Lib/glyphs2ufo/casting.py:273-274 | after any number of the replacements, the text is no longer than before, and text without a backslash is unchanged |
| Features.Unescaped | Lib/glyphs2ufo/casting.py:264-275 | `feature_syntax` never makes the text longer and leaves text without a backslash as it is |
| Features.ReplaceAllNone | Lib/glyphs2ufo/casting.py:273-274 | `replace` of a pattern that occurs nowhere leaves the text unchanged |
| Features.ReplaceAllAbsent | Lib/glyphs2ufo/casting.py:273-274 | `replace` of a pattern whose first character does not occur leaves the text unchanged |
| Features.ReplaceAllHit | Lib/glyphs2ufo/casting.py:273-274 | an occurrence at the front is replaced and the scan resumes after it |
| Features.ReplaceAllSkip | Lib/glyphs2ufo/casting.py:273-274 | text before the first possible occurrence is kept as it is |
| Features.ReplaceAllOther | Lib/glyphs2ufo/casting.py:273-274 | another escape with the same backslash is not mistaken for the pattern |
| Features.UnescapeNewlines | Lib/glyphs2ufo/casting.py:271 | the `\012` step turns escaped newlines back into newlines and leaves the escaped tabs as they are |
| Features.UnescapeTabs | Lib/glyphs2ufo/casting.py:271 | the `\011` step turns escaped tabs back into tabs |
| Features.EscapeRoundTrip | Lib/glyphs2ufo/casting.py:264-275 | for text without backslashes, escaping newlines and tabs and then applying `feature_syntax` gives the text back |
| Kerning.CastKerning | Lib/glyphs2ufo/casting.py:235-245 | the outer loop over masters builds exactly the table `KerningTable` describes, or fails when it does |
| Kerning.CastLeftGlyphs | Lib/glyphs2ufo/casting.py:241-244 | the middle loop over left glyphs builds exactly one master's cast level |
| Kerning.CastRightGlyphs | Lib/glyphs2ufo/casting.py:243-244 | the inner loop over right glyphs builds exactly one left glyph's cast pairs |
| Kerning.CastPairs | Lib/glyphs2ufo/casting.py:243-244 | one left glyph's pairs cast exactly when every value is text `int` reads; the result keeps the right glyphs and gives each the int of its text |
| Kerning.CastLeft | Lib/glyphs2ufo/casting.py:242-244 | a left glyph's entry casts exactly when it is a dictionary of `int` text, and stays a dictionary with the same right glyphs |
| Kerning.CastGlyphs | Lib/glyphs2ufo/casting.py:241-244 | one master's glyph level casts exactly when every left glyph maps to a dictionary of `int` text, and keeps the left glyphs |
| Kerning.CastMaster | Lib/glyphs2ufo/casting.py:240-244 | a master's entry casts exactly when it is a dictionary of left glyphs that cast, and stays a dictionary with the same left glyphs |
| Kerning.KerningTable | Lib/glyphs2ufo/casting.py:235-245 | `kerning` succeeds exactly on a dictionary of dictionaries of dictionaries whose every leaf is text that `int` reads, and then gives a table with the same masters |
| Kerning.GlyphsShape | Lib/glyphs2ufo/casting.py:241-244 | a cast master level has the same left and right glyphs, and each value is the int its text denotes |
| Kerning.KerningShape | Lib/glyphs2ufo/casting.py:235-245 | a cast table has the same masters, and each master's level is its cast glyph level |
| Kerning.KerningBadValue | Lib/glyphs2ufo/casting.py:244 | one value anywhere that `int` rejects fails the whole table |
| Caster.CastItemsSpec | Lib/glyphs2ufo/casting.py:46-48 | a nested list casts exactly when every element is a record that casts; then each element becomes its cast record, in order |
| Caster.Convert | Lib/glyphs2ufo/casting.py:50 | each converter's result has the promised type: ints, a boolean, numbers, two- and six-number vectors, nodes, lists as long as the input, a valid date-time, a table with the same masters, feature text no longer than before |
| Caster.CastField | Lib/glyphs2ufo/casting.py:46-50 | a nested schema's cast is a list with as many records as the input |
| Caster.CastItems | Lib/glyphs2ufo/casting.py:47-48 | a cast list of records has as many elements as before, each a dictionary |
| Caster.CastRecord | Lib/glyphs2ufo/casting.py:33-50 | a successful `cast_data` keeps every key of the record and adds exactly the schema keys that have a default |
| Caster.HandledPresent | Lib/glyphs2ufo/casting.py:50 | handling a present schema key stores its converted value and nothing else |
| Caster.HandledDefault | Lib/glyphs2ufo/casting.py:40-45 | handling an absent key with a default stores the default and nothing else |
| Caster.HandledSkip | Lib/glyphs2ufo/casting.py:40-45 | handling an absent key without a default changes nothing |
| Caster.HandledFail | Lib/glyphs2ufo/casting.py:46-50 | one key whose value cannot be cast fails the whole record |
| Caster.ConvertValue | Lib/glyphs2ufo/casting.py:50 | applying a key's converter gives what the converter function gives, with the kerning and feature converters run as their loops |
| Caster.CastData | Lib/glyphs2ufo/casting.py:33-50 | the loop over the schema keys, writing back defaults, converted values and cast records, ends with exactly `CastRecord(types, data)` |
| Caster.CastKey | Lib/glyphs2ufo/casting.py:46-50 | one schema key is cast by its converter or, for a nested schema, by casting each record of the list |
| Caster.CastRecords | Lib/glyphs2ufo/casting.py:47-48 | the loop over the records of a list casts each in place and gives exactly `CastItems` |
| Caster.CastDocument | Lib/glyphs2ufo/casting.py:36-37 | with no type structure given, the document is cast with `get_type_structure()` |
| Caster.CastRecordEffect | Lib/glyphs2ufo/casting.py:33-50 | a successful cast keeps the record's keys and adds the schema keys that have defaults. Absent defaulted keys hold their default, keys outside the schema are unchanged, converter keys hold their converter's result, and nested keys hold the cast records |
| Caster.CastRecordFailure | Lib/glyphs2ufo/casting.py:33-50 | a cast fails exactly when some schema key present in the record fails to cast |
| Caster.RecordDefault | Lib/glyphs2ufo/casting.py:40-42 | a schema key with a default that the record lacks gets the default |
| Caster.MasterWeightsDefault | Lib/glyphs2ufo/casting.py:26-30 | a master without `weightValue` or `widthValue` has it as 100 after the cast |
| Caster.InstanceWeightsDefault | Lib/glyphs2ufo/casting.py:26-30 | an instance without `interpolationWeight` or `interpolationWidth` has it as 100 after the cast |
| Caster.AnchorCastsOnce | Lib/glyphs2ufo/casting.py:118-121 | casting is single-pass: casting a cast anchor again fails, because `point` expects text |
| Caster.CastParameters | Lib/glyphs2ufo/casting.py:56-58 | a list of custom parameters casts exactly when each parameter does, element by element, in order |
| Caster.CastParameter | Lib/glyphs2ufo/casting.py:56-58 | a custom parameter must be a dictionary with a `name`; only its `value` can change, and a parameter with another name is left as it is |
| Caster.CastCustom | Lib/glyphs2ufo/casting.py:53-58 | `cast_custom_data` keeps the document's keys and changes none but `customParameters` |
| Caster.CastCustomData | Lib/glyphs2ufo/casting.py:53-58 | the loop over the custom parameters rewrites them in place and gives exactly `CastCustom(data)` |
| Caster.CastCustomEffect | Lib/glyphs2ufo/casting.py:53-58 | only the `value` of the parameters named `openTypeOS2Type` changes, to the ints its strings denote in order; every other parameter and key stays as it was |
| Samples.RangeChecks | Lib/glyphs2ufo/casting.py:248-261 | `descender_val("-10")` is -10 and `descender_val("10")` fails; `version_minor("500")` is 500 and `version_minor("1000")` fails |
| Samples.LeadingZerosSample | Lib/glyphs2ufo/casting.py:251 | `int("007")` is 7 |
| Samples.SignedIntSample | Lib/glyphs2ufo/casting.py:251 | `int("+5")` is 5 and `int("-12")` is -12 |
| Samples.HexSample | Lib/glyphs2ufo/casting.py:190-192 | `hex_int("00C5")` is 197 |
| Samples.HexValue | Lib/glyphs2ufo/casting.py:190-192 | the four digits `0`, `0`, `C`, `5`, taken one at a time, read as 197 |
| Samples.ExponentSample | Lib/glyphs2ufo/casting.py:182-187 | `float("1e2")` is 100, so `num("1e2")` is the int 100 |
| Samples.NegativeExponentSample | Lib/glyphs2ufo/casting.py:185 | `float("25e-1")` is 2.5 |
| Samples.ExponentValue | Lib/glyphs2ufo/casting.py:185 | digits, an exponent marker and exponent text reading as `K` give the digits' value times `10^K` |
| Samples.NumTwoAndAHalf | Lib/glyphs2ufo/casting.py:182-187 | `num("2.5")` is the float 2.5 |
| Samples.NumTenAndAHalf | Lib/glyphs2ufo/casting.py:182-187 | `num("10.5")` is the float 10.5 |
| Samples.VectorSample | Lib/glyphs2ufo/casting.py:195-199 | `vector("{1, 2.5}", 2)` is `[1, 2.5]` |
| Samples.PairVector | Lib/glyphs2ufo/casting.py:195-199 | a rendered pair of tokens that `num` accepts reads back under `vector(_, 2)` as the pair of their numbers |
| Samples.PointWrongSeparator | Lib/glyphs2ufo/casting.py:195-203 | `point("{1,2,3}")` fails |
| Samples.NodeSample | Lib/glyphs2ufo/casting.py:210-215 | `node("100 200 LINE")` is `[100, 200, "LINE", None]` |
| Samples.SmoothNodeSample | Lib/glyphs2ufo/casting.py:210-215 | `node("10.5 20 CURVE SMOOTH")` is `[10.5, 20, "CURVE", "SMOOTH"]` |
| Samples.KerningSample | Lib/glyphs2ufo/casting.py:235-245 | `{"m1": {"A": {"B": "10"}}}` casts to `{"m1": {"A": {"B": 10}}}` |
| Samples.FeatureSample | Lib/glyphs2ufo/casting.py:264-275 | `feature_syntax` turns `\U2018hello\U2019` into `'hello'` |

## Left out

- Floating point: `float` and `num` are modelled on exact reals. IEEE rounding, `inf` and `nan` are not modelled, and neither are very long literals that round to an integer.
- Num: no whitespace, underscores, `inf` or `nan` in the accepted text, which `float` accepts.
- IntOf: the accepted text is an optional `+` or `-` and one or more digits. The surrounding whitespace and the digit-group underscores that `int` also accepts are not modelled.
- HexInt: the accepted text is an optional `+` or `-`, an optional `0x` or `0X`, and one or more hexadecimal digits. The surrounding whitespace and the digit-group underscores that `int(s, 16)` also accepts are not modelled.
- ParseDateTime: `strptime` also accepts fields written with fewer digits (`2016-1-5 3:04:05`), and it matches the space of the format against any run of whitespace (`2016-01-05  03:04:05` with two spaces, or a tab). The model reads every field at full width with exactly one space between date and time, the form Glyphs files are written in.
- Digits: `int`, `float` and the `\d` of the two regular expressions also accept non-ASCII decimal digits (Arabic-Indic, fullwidth and so on). The model accepts only the ASCII digits `0`-`9`.
- `re.match` is replaced by hand-written matchers for the two fixed patterns; no general regular-expression engine is modelled.
- Converters applied to something other than text fail in the model (`ConvKind` dispatch needs `Str`), while Python's `int(5)` or `bool(int(1))` would succeed on an already-cast value. The one consequence stated about this is `AnchorCastsOnce`.
- `str`, `list`, `dict` and `default` are the identity on every value. Python's `str` of a non-string would return its representation, and `list` of a string would split it into characters.
- Duck typing is not modelled: a nested-schema value that is a string (which Python would iterate character by character), or records that are not dictionaries, fail.
- The kind of exception (`ValueError`, `AttributeError`, `AssertionError`, `KeyError`, `TypeError`) is not distinguished: every failure is `None`.
- In-place mutation: the Python caster writes into the dictionaries it is given, so after a failure the document is partly cast, and an aliased record is cast twice. The model works on values. It returns the fully cast record or `None` and does not model partial writes or aliasing.
- The order of dictionary iteration is left open (keys are chosen with `:|`). The model proves the result is the same whatever order the loops take.
- `map(int, ...)` and friends: the list converters are eager. Under a lazy `map`, a failing element surfaces only when the list is consumed, not during the cast.
- Kerning.CastKerning: the three nested loops of `kerning` are three methods, one per level, each calling the next.
- CastParameter: a custom parameter's `value` must be a list. A string there would be iterated character by character.
- The Glyphs parser that produces the tree, and the code that consumes the cast tree, are not part of this model.

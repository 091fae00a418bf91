# DWML data-subtree converter, modelled in Dafny

This project models the core of `tk-dwml-to-json`. The converter turns a
DWML forecast document (the National Weather Service's Digital Weather Markup
Language), once an XML library has reduced it to a tree of
`{name, attributes, children, content}` nodes, into a map from location key
to `{location, values}`. The model follows the converter's own parts:

- `Tree` (`tree.dfy`) holds the node type and one error datatype standing
  for every synchronous throw. It also holds underscore's `findWhere`, `where`
  and a throwing `map` (`FirstNamed`, `WhereNamed`, `Traverse`).
- `Utils` (`utils.dfy`) is `slugify`: lower-casing, then one hyphen per
  maximal run of characters outside `[a-z0-9]`.
- `TimeLayout` (`time_layout.dfy`) is the time-layout parser. `_getTimeFrames`
  is the method `GetTimeFrames`, a `while` loop over the children that keeps
  one open pair and the last interval. It is proved equal to the function
  `TimeFrames`, the same scan written as a fold (`Step`, `Scan`, `Finish`).
  Date arithmetic is a `Clock` value passed in (`millis`, `plus`).
- `Location` (`location.dfy`) is the location parser.
- `Parameter` (`parameter.dfy`) is the parameter parser.
  - The record key comes from the tag name and the slug of `type`.
  - The gate checks the `time-layout` attribute and the skip list.
  - The count check compares non-`name` children with the layout's frames.
  - `_formatValuesWithTimeLayouts` is the method
    `FormatValuesWithTimeLayouts`, a loop with its own frame cursor. It is
    proved equal to the zip `AlignValues` of the `value` and
    `weather-conditions` children with the frames.
  - The attribute-filter `for` loop is the method `FilterAttributes`.
  - The `_.reduce` over the dataSets is the fold `ParseDataSets`, one
    `AddDataSet` per step.
- `DataSubtree` (`data_subtree.dfy`) is the orchestrator.
  - `_getTimeLayouts`, `_getParameters` and `_getLocations` become
    `GetTimeLayouts`, `GetParameters` and `GetLocations`.
  - `_unwrap` is `Unwrap`, where the last map wins per key.
  - `_mergeLocationsAndParameters` is `MergeLocationsAndParameters`.
  - `parse` is `ParseDataSubtree`.
- `DwmlParser` (`dwml_parser.dfy`) holds the root checks and the hand-off of
  the first `data` child. It also holds a small worked document parsed end to
  end.

Some behaviour of the code that the model keeps as written:

- A `start-valid-time` with empty content closes the open pair, with the
  empty string as its end, and opens no new pair
  (`dwml-data-parsers/time-layout.js:61-79`).
- On a count mismatch with `skipPropertiesWithNonMatchingEntryCount` set, the
  dataSet adds nothing. `memo[key]` is only created on the matching branch, so
  a record stored under the same key by an earlier dataSet stays as it was
  (`dwml-data-parsers/parameter.js:77-111`).
- A location that no parameter group names gets `values` undefined (`None`)
  (`dwml-data-subtree-parser.js:81-84`). The declared result type has a
  `values` object for every point (`dwml-parser.d.ts:46-51`).
- Each dataSet's attributes are read first, so a dataSet without attributes
  is a TypeError (`dwml-data-parsers/parameter.js:46`). Then the gate on a
  non-empty `time-layout` and the skip list decides whether the dataSet is
  looked at further (`dwml-data-parsers/parameter.js:53-54`). Only a dataSet
  that passes the gate has its children read, so a missing children array is
  a TypeError only then (`dwml-data-parsers/parameter.js:70`). The same holds
  for a `time-layout` that names no known layout
  (`dwml-data-parsers/parameter.js:77`).

## Model

| member | source | states |
|---|---|---|
| Tree.FirstNamed | dwml-data-parsers/location.js:35 | `findWhere` by name gives None exactly when no node has the name; otherwise it gives a node with that name and no earlier node has it |
| Tree.RequiredContent | dwml-data-parsers/location.js:34-43 | the guarded lookup succeeds iff some node has the name and the first such node has non-empty content; it then gives that content, and fails with the given error otherwise |
| Tree.WhereNamed | dwml-data-subtree-parser.js:46 | `where` by name keeps only nodes with that name, taken from the input, and keeps every one of them |
| Tree.WhereNamedAppend | dwml-data-subtree-parser.js:46 | `where` keeps document order and multiplicity: filtering a concatenation is the concatenation of the filtered parts |
| Tree.WhereNamedCons | dwml-data-subtree-parser.js:46 | filtering a node followed by more nodes keeps that node first exactly when it has the name |
| Tree.Traverse | dwml-data-subtree-parser.js:47-50 | a `map` whose callback may throw succeeds iff every element succeeds, with results index by index; otherwise it gives the error of the first failing element |
| Tree.TraverseSingleton | dwml-data-subtree-parser.js:47-50 | mapping over one element gives that element's result or its error |
| Utils.CollapseRuns | dwml-data-parsers/utils.js:3 | the regular-expression replace never lengthens a string; it is empty iff the input is; it starts with `-` iff the input starts with a separator |
| Utils.CollapseRunsSlug | dwml-data-parsers/utils.js:3 | the replace gives only `[a-z0-9-]` with no two hyphens together, and keeps the input's `[a-z0-9]` characters in order |
| Utils.SkipRunChars | dwml-data-parsers/utils.js:3 | the `+` of the pattern consumes separators only: no letter or digit is dropped with a run |
| Utils.CollapseAppend | dwml-data-parsers/utils.js:3 | the replace works piecewise across a boundary after a letter or digit: `replace(x + y) == replace(x) + replace(y)` |
| Utils.RunBetween | dwml-data-parsers/utils.js:3 | a maximal run of separators between two slug parts becomes exactly one hyphen at that place, and the text on either side is replaced on its own |
| Utils.SeparatorsThen | dwml-data-parsers/utils.js:3 | a separator run at the start, before a letter, a digit or nothing, becomes one leading hyphen |
| Utils.SeparatorRun | dwml-data-parsers/utils.js:3 | a string made only of separators becomes the single hyphen `-` |
| Utils.CollapseThreeRuns | dwml-data-parsers/utils.js:3 | separator runs before, between and after two letters or digits become three hyphens in those places |
| Utils.Slugify | dwml-data-parsers/utils.js:1-6 | slugify never lengthens a string and is empty iff its input is; the result is a slug; its letters and digits are the lower-cased input's letters and digits, in order |
| Utils.Lower | dwml-data-parsers/utils.js:3 | `toLowerCase` keeps the length and lower-cases each character in place |
| Utils.LowerOfSlug | dwml-data-parsers/utils.js:3 | lower-casing leaves a slug unchanged |
| Utils.CollapseOfSlug | dwml-data-parsers/utils.js:3 | collapsing separator runs leaves a slug unchanged |
| Utils.SlugifyOfSlug | dwml-data-parsers/utils.js:3 | slugify leaves a slug unchanged |
| Utils.SlugifyIdempotent | dwml-data-parsers/utils.js:3 | `slugify(slugify(s)) == slugify(s)` |
| Utils.CollapseKeeps | dwml-data-parsers/utils.js:3 | a leading letter or digit is kept as it is |
| Utils.CollapseSeparator | dwml-data-parsers/utils.js:3 | a separator run of length one, followed by a letter, a digit or nothing, becomes one hyphen |
| Utils.SlugifyHourly | test/parser.test.js:77 | `hourly` slugifies to itself |
| Utils.SlugifyTwelveHour | test/parser.test.js:223-224 | `12 hour` slugifies to `12-hour` |
| Utils.SlugifyKeepsEnds | dwml-data-parsers/utils.js:3 | ` A, b!` slugifies to `-a-b-`: it is lower-cased, each separator run becomes one hyphen, and separators at either end are not trimmed |
| TimeLayout.ScanStarts | dwml-data-parsers/time-layout.js:57-93 | at every point of the scan, the starts of the pushed frames, followed by the open pair's start, are exactly the non-empty `start-valid-time` contents seen so far, in order |
| TimeLayout.Step | dwml-data-parsers/time-layout.js:57-93 | one iteration pushes at most one frame and keeps the earlier ones. A start leaves a pair open iff its content is non-empty, opened at that content. An end leaves no pair open. Any other child changes nothing |
| TimeLayout.StepCloses | dwml-data-parsers/time-layout.js:61-91 | with a pair open, a `start-valid-time` or `end-valid-time` child closes it: the frame pushed runs from the open start to that child's content, and `lastInterval` becomes `millis(end) - millis(start)`. With no pair open, nothing is pushed and `lastInterval` is kept |
| TimeLayout.StepShape | dwml-data-parsers/time-layout.js:57-93 | one iteration is a close followed by an open: the frames grow by the closed pair exactly when a pair was open and the child is a start or an end. The open pair afterwards is the child's content when it opens one; otherwise none after a close, and the old one otherwise |
| TimeLayout.NextMarkerIsFirst | dwml-data-parsers/time-layout.js:57-93 | the marker found after a position is the first `start-valid-time` or `end-valid-time` child there, and none is found only when no such child follows |
| TimeLayout.ScanByPositions | dwml-data-parsers/time-layout.js:57-93 | after the loop, every closed frame runs from an opening start to the content of the first start or end after it. The open pair, if any, belongs to the last opening start, and no start or end follows it |
| TimeLayout.FinishByPositions | dwml-data-parsers/time-layout.js:95-119 | closing the trailing pair keeps that description of the closed frames and adds the last frame, which ends `lastInterval` (or one hour) after its start |
| TimeLayout.Scan | dwml-data-parsers/time-layout.js:57-93 | the loop pushes at most one frame or open pair per child |
| TimeLayout.Finish | dwml-data-parsers/time-layout.js:95-119 | the pushed frames are kept; a trailing open pair adds exactly one frame, starting at its start |
| TimeLayout.TimeFrames | dwml-data-parsers/time-layout.js:51-122 | a layout never has more frames than children, and has one frame per opening start (a `start-valid-time` with non-empty content). The k-th frame starts at the k-th opening start's content. It ends at the content of the first `start-valid-time` or `end-valid-time` child after that start, whatever mix of children comes between. Only the last frame may have no such child, and then it ends `plus(start, lastInterval)`, or one hour after its start when no frame was closed |
| TimeLayout.TimeFramesStarts | dwml-data-parsers/time-layout.js:51-122 | there is one frame per non-empty `start-valid-time`, in document order, and each starts at that child's content |
| TimeLayout.LastIntervalIsLastFrame | dwml-data-parsers/time-layout.js:63-91 | `lastInterval` is unset iff no frame has been closed; otherwise it is the duration of the most recently closed frame |
| TimeLayout.TrailingPairEnd | dwml-data-parsers/time-layout.js:95-119 | a trailing open pair becomes the last frame. It ends `plus(start, lastInterval)`: the last closed frame's duration, or 3,600,000 ms when none was closed |
| TimeLayout.StrayEndIgnored | dwml-data-parsers/time-layout.js:81-91 | an `end-valid-time` while no pair is open changes nothing |
| TimeLayout.EmptyStartClosesOnly | dwml-data-parsers/time-layout.js:61-79 | a `start-valid-time` with empty content closes the open pair with the empty string as its end and leaves no pair open |
| TimeLayout.ScanContiguous | dwml-data-parsers/time-layout.js:61-79 | with only non-empty starts, each frame ends where the next begins, and the last closed frame ends at the open pair's start |
| TimeLayout.BackToBackStartsContiguous | dwml-data-parsers/time-layout.js:61-79 | back-to-back starts give contiguous frames |
| TimeLayout.ScanPairs | dwml-data-parsers/time-layout.js:57-93 | children written as start/end pairs scan to exactly those pairs, with no pair left open |
| TimeLayout.PairStep | dwml-data-parsers/time-layout.js:61-91 | a non-empty start followed by its end, with no pair open before them, pushes exactly that pair and leaves no pair open |
| TimeLayout.CompletePairs | dwml-data-parsers/time-layout.js:51-122 | a layout of complete start/end pairs gives exactly those frames, in order |
| TimeLayout.GetTimeFrames | dwml-data-parsers/time-layout.js:51-122 | the loop returns the scan's frames: one per non-empty start, the k-th starting at the k-th such start |
| TimeLayout.GetKey | dwml-data-parsers/time-layout.js:31-40 | the key exists iff the first `layout-key` child exists and has non-empty content; it is that content, and MissingLayoutKey otherwise |
| TimeLayout.ParseTimeLayout | dwml-data-parsers/time-layout.js:16-29 | no children gives InvalidTimeLayout, a missing key MissingLayoutKey, and there are no other errors. Otherwise the result is the one entry from the key to the layout's frames, whose starts are the non-empty `start-valid-time` contents in order |
| Location.GetLocationKey | dwml-data-parsers/location.js:34-43 | the key exists iff the first `location-key` child exists and has non-empty content; it is that content, and MissingLocationKey otherwise |
| Location.GetLocationPoint | dwml-data-parsers/location.js:45-53 | the point is the attribute map of the first `point` child, copied whole. It fails with MissingPoint iff there is no such child or it has no attributes |
| Location.ParseLocation | dwml-data-parsers/location.js:19-32 | no children gives InvalidLocation; then a missing key gives MissingLocationKey; then a missing point gives MissingPoint. It succeeds iff none of these happens, with the one entry from the key to the point |
| Location.ParseLocationExample | test/parser.test.js:141-150 | the test's location gives `point1` mapped to its latitude and longitude; an extra child before the key is ignored |
| Parameter.Normalize | dwml-data-parsers/parameter.js:13-15 | an option that is given is kept as given; a missing one defaults to no skip and an empty skip list |
| Parameter.NormalizeIdempotent | dwml-data-parsers/parameter.js:13-15 | writing the defaults back into the options and normalizing again gives the same configuration |
| Parameter.ApplicableLocation | dwml-data-parsers/parameter.js:29-36 | the group's key is its `applicable-location` attribute; it succeeds iff that attribute exists and is not empty, and fails with MissingApplicableLocation otherwise |
| Parameter.RecordKey | dwml-data-parsers/parameter.js:46-51 | the key starts with the tag name. It equals the tag name iff `type` is absent or empty. Otherwise the name is followed by `-` and a slug whose letters and digits are those of the lower-cased `type` |
| Parameter.RecordKeyOfType | dwml-data-parsers/parameter.js:46-51 | a non-empty `type` gives `name-slugify(type)` |
| Parameter.RecordKeyHourlyType | test/parser.test.js:77 | a `type` of `hourly` gives `name-hourly`, as in `temperature-hourly` |
| Parameter.RecordKeyTwelveHour | test/parser.test.js:223-224 | a `type` of `12 hour` gives `name-12-hour` |
| Parameter.RecordKeyUntyped | test/parser.test.js:265-266 | a dataSet without `type` is keyed by its tag name alone (`weather`) |
| Parameter.ValueChildren | dwml-data-parsers/parameter.js:156-163 | the children the cursor advances on are all `value` or `weather-conditions` |
| Parameter.ValueChildrenWithinCount | dwml-data-parsers/parameter.js:70-77 | the cursor's children are never more than the non-`name` children, so a passed count check keeps the cursor within the frames |
| Parameter.ValueChildrenOfPrefix | dwml-data-parsers/parameter.js:152-190 | the cursor children of a prefix are a prefix of the cursor children |
| Parameter.ValueChildrenStep | dwml-data-parsers/parameter.js:156-187 | the cursor's children grow by one child exactly when that child is a `value` or `weather-conditions` |
| Parameter.DecodeWeather | dwml-data-parsers/parameter.js:165-181 | decoding a condition can only fail with a TypeError |
| Parameter.DecodeWeatherFields | dwml-data-parsers/parameter.js:165-181 | decoding fails iff the node, or its first sub-condition, has no attributes. Otherwise the summary is the node's `weather-summary` when present, and the other four fields are the first sub-condition's attributes, or all null without one |
| Parameter.DecodeValue | dwml-data-parsers/parameter.js:156-187 | a `value` child gives its content; a `weather-conditions` child gives its decoded condition, or that decoding's error |
| Parameter.AlignValues | dwml-data-parsers/parameter.js:152-190 | on success the zip has one entry per cursor child; its only errors are TypeErrors |
| Parameter.NonNameCount | dwml-data-parsers/parameter.js:70-75 | the count of non-`name` children is at most the number of children |
| Parameter.WeatherWithoutSubConditions | dwml-data-parsers/parameter.js:165-181 | a condition with attributes and no sub-conditions (children absent or empty) decodes to its `weather-summary`, if any, and four nulls |
| Parameter.WeatherReadsFirstSubCondition | dwml-data-parsers/parameter.js:165-181 | only the first sub-condition is read; any after it are dropped |
| Parameter.WeatherExample | test/parser.test.js:293-299 | the test's condition decodes to summary `Chance Rain Showers`, coverage `chance`, intensity `light`, type `rain showers` and qualifier `none` |
| Parameter.AlignValuesZips | dwml-data-parsers/parameter.js:143-193 | the zip succeeds iff every cursor child decodes. Then it has one entry per cursor child, the k-th pairing frame k with the k-th child's value; otherwise it fails with the first child's error |
| Parameter.AlignErrorPersists | dwml-data-parsers/parameter.js:163-187 | once a prefix of the cursor children fails to decode, every longer sequence fails with the same error |
| Parameter.AlignStep | dwml-data-parsers/parameter.js:156-162 | zipping one more decodable child appends its entry on the next frame |
| Parameter.ZipStep | dwml-data-parsers/parameter.js:152-190 | one loop iteration from the state after the first i children: a child that is not `value` or `weather-conditions` gives the state after i + 1 with cursor and results unchanged; one that decodes advances the cursor and appends its entry on the cursor's frame; one that fails fails the whole zip with its error |
| Parameter.FormatValuesWithTimeLayouts | dwml-data-parsers/parameter.js:143-193 | the loop's result is the zip of the cursor children with the frames; on success it holds one entry per `value` or `weather-conditions` child |
| Parameter.FilterAttributes | dwml-data-parsers/parameter.js:88-95 | the loop keeps exactly the attributes whose names are not skipped, with their values |
| Parameter.FilteredAttributes | dwml-data-parsers/parameter.js:88-95 | an attribute is kept iff its name is not skipped, with its value unchanged |
| Parameter.AddDataSet | dwml-data-parsers/parameter.js:45-115 | one step never drops a key of the map, and fails only with a TypeError or a count mismatch. An accepted dataSet whose values fail to decode fails with that decoding's error. A count mismatch is reported only for a gated dataSet with children, a known layout and no skip option; it names that layout key, the layout's frame count and the different count of non-`name` children |
| Parameter.ParseDataSets | dwml-data-parsers/parameter.js:43-118 | the fold fails only with a TypeError or a count mismatch |
| Parameter.ParsedKeys | dwml-data-parsers/parameter.js:43-118 | the result's keys are exactly the keys of the accepted dataSets: gated, with children, a known layout and a matching count |
| Parameter.AddDataSetKeys | dwml-data-parsers/parameter.js:45-115 | one step adds the dataSet's key exactly when the dataSet is accepted |
| Parameter.AddDataSetGuards | dwml-data-parsers/parameter.js:46-77 | no attributes is a TypeError. A missing or empty `time-layout`, or a skipped key, adds nothing. Then no children, or a layout key with no layout, is a TypeError |
| Parameter.SkippedKeysAbsent | dwml-data-parsers/parameter.js:54 | a skipped key never appears in the result |
| Parameter.NoSilentMismatch | dwml-data-parsers/parameter.js:102-110 | without the skip option, a successful fold means every gated dataSet was accepted |
| Parameter.MismatchOutcome | dwml-data-parsers/parameter.js:102-110 | on a count mismatch, the skip option leaves the map unchanged; without it, the error names the layout key, the frame count and the child count |
| Parameter.AddDataSetRecords | dwml-data-parsers/parameter.js:77-101 | a dataSet that is not accepted leaves the map unchanged. An accepted one has entries and extends the record under its key: the earlier fields, then the filtered attributes, then `values` |
| Parameter.RecordsOmitSkippedAttributes | dwml-data-parsers/parameter.js:87-101 | every record has `values`, and no skipped name appears among its other fields |
| Parameter.LastDataSetValuesWin | dwml-data-parsers/parameter.js:85-101 | when several accepted dataSets share a key, the record's `values` are those of the last one |
| Parameter.AlignTwoScalars | dwml-data-parsers/parameter.js:156-162 | two `value` children zip with the first two frames |
| Parameter.LoneDataSet | dwml-data-parsers/parameter.js:43-118 | a group with one accepted dataSet holds one record: its filtered attributes and its entries |
| Parameter.ParseParameters | dwml-data-parsers/parameter.js:11-27 | a missing location key fails with MissingApplicableLocation; then a failing fold fails with its error. Otherwise there is one entry: that key, mapped to the fold over the group's children under the normalized options |
| DataSubtree.UnwrapKeys | dwml-data-subtree-parser.js:95-103 | the unwrapped map's keys are the union of the inputs' keys |
| DataSubtree.UnwrapLastWins | dwml-data-subtree-parser.js:95-103 | a key's value is the one from the last input map that holds it, whole |
| DataSubtree.UnwrapSingleton | dwml-data-subtree-parser.js:95-103 | one map unwraps to itself |
| DataSubtree.Unwrap | dwml-data-subtree-parser.js:95-103 | every entry of the last map is in the result, unchanged: a later map overrides earlier ones |
| DataSubtree.GetTimeLayouts | dwml-data-subtree-parser.js:68-75 | reading the layouts fails only with InvalidTimeLayout or MissingLayoutKey, and then with the error of the first `time-layout` child that fails to parse, every earlier one parsing |
| DataSubtree.LayoutsFirstError | dwml-data-subtree-parser.js:69-73 | the error of the `map` over the `time-layout` children is that of the first child that fails |
| DataSubtree.GetTimeLayoutsOk | dwml-data-subtree-parser.js:68-75 | the layouts are read iff every `time-layout` child parses |
| DataSubtree.GetTimeLayoutsKeys | dwml-data-subtree-parser.js:68-75 | on success, a key is a layout key iff some `time-layout` child has children whose layout key it is |
| DataSubtree.LayoutKey | dwml-data-subtree-parser.js:68-75 | the same, for one key |
| DataSubtree.LastLayoutWins | dwml-data-subtree-parser.js:68-75 | on success, a key maps to the frames of the last `time-layout` child that declares it |
| DataSubtree.GetParameters | dwml-data-subtree-parser.js:60-66 | reading the parameters fails only with MissingApplicableLocation, a TypeError or a count mismatch, and then with the error of the first `parameters` child that fails to parse, every earlier one parsing |
| DataSubtree.GroupsFirstError | dwml-data-subtree-parser.js:61-64 | the error of the `map` over the `parameters` children is that of the first group that fails |
| DataSubtree.GetParametersOk | dwml-data-subtree-parser.js:60-66 | the parameters are read iff every `parameters` child parses |
| DataSubtree.GetParametersKeys | dwml-data-subtree-parser.js:60-66 | on success, a key has parameters iff some `parameters` child's `applicable-location` is that key; no other key appears |
| DataSubtree.ParameterKey | dwml-data-subtree-parser.js:60-66 | the same, for one key |
| DataSubtree.GetLocations | dwml-data-subtree-parser.js:45-52 | reading the locations fails only with one of the three location errors, and then with the error of the first `location` child that fails to parse, every earlier one parsing |
| DataSubtree.LocationsFirstError | dwml-data-subtree-parser.js:46-50 | the error of the `map` over the `location` children is that of the first child that fails |
| DataSubtree.GetLocationsOk | dwml-data-subtree-parser.js:45-52 | the locations are read iff every `location` child parses |
| DataSubtree.GetLocationsKeys | dwml-data-subtree-parser.js:45-52 | on success, a key is a location key iff some `location` child has children whose location key it is |
| DataSubtree.LocationKey | dwml-data-subtree-parser.js:45-52 | the same, for one key |
| DataSubtree.LastLocationWins | dwml-data-subtree-parser.js:45-52 | on success, a key maps to the point of the last `location` child that declares it |
| DataSubtree.MergeLocationsAndParameters | dwml-data-subtree-parser.js:77-89 | the result's keys are exactly the location keys. Each entry holds its location; `values` is present iff a group names the key, and then it is that group's records |
| DataSubtree.MergeSingleton | dwml-data-subtree-parser.js:77-89 | one location and one group with the same key merge into one point |
| DataSubtree.ErrorsPropagateInOrder | dwml-data-subtree-parser.js:32-43 | a failing stage fails the parse with its own error; the stages run as layouts, then parameters, then locations |
| DataSubtree.ParseDataSubtree | dwml-data-subtree-parser.js:32-43 | on success the locations were read and the result's keys are exactly theirs |
| DataSubtree.StagesSucceed | dwml-data-subtree-parser.js:32-43 | when all three stages succeed, the parse is the merge of the locations and the parameters |
| DataSubtree.ResultKeysAreLocationKeys | dwml-data-subtree-parser.js:32-52 | on success the result's keys are exactly the keys of the `location` children |
| DataSubtree.LastParameterGroupWins | dwml-data-subtree-parser.js:60-66 | a later `parameters` group for the same location replaces the earlier group's whole record map |
| DwmlParser.IsValidDwmlTree | dwml-parser.js:57-71 | valid iff the root exists, is named `dwml` and has children; otherwise the message of the first failed check, in that order |
| DwmlParser.GetDwmlObjectsFromTree | dwml-parser.js:29-43 | an invalid root fails with its message. A valid root without a `data` child is a TypeError. Success requires a valid root. With a `data` child, the result is the parse of the first one |
| DwmlParser.RootChecksInOrder | dwml-parser.js:57-71 | four failing documents: no root, a wrong root name, no children, and no `data` child |
| DwmlParser.ExampleLayoutFrames | dwml-data-parsers/time-layout.js:51-122 | a layout with two starts gives a frame closed by the second start, then a trailing frame as long as the first |
| DwmlParser.ExampleTimeLayouts | dwml-data-subtree-parser.js:68-75 | the worked document's layouts are the one layout `k1` |
| DwmlParser.ExampleLocations | dwml-data-subtree-parser.js:45-52 | the worked document's locations are `point1` mapped to its point |
| DwmlParser.ExampleTemperatureKey | dwml-data-parsers/parameter.js:46-51 | an untyped `temperature` dataSet is keyed `temperature` |
| DwmlParser.ExampleTemperatureChildren | dwml-data-parsers/parameter.js:70-75 | the `name` child is not counted, and the two `value` children are the cursor's children |
| DwmlParser.ExampleTemperatureRecords | dwml-data-parsers/parameter.js:43-118 | the temperature record keeps its `time-layout` attribute and zips its two values with the layout's two frames |
| DwmlParser.ExampleParameters | dwml-data-subtree-parser.js:60-66 | the worked document's parameters are `point1` mapped to that record |
| DwmlParser.ExampleDocumentParses | dwml-parser.js:29-43 | the whole worked document parses to `point1` holding its point and the temperature record |

## Left out

- The XML tokenizer (`parse` in `dwml-parser.js`) is foreign code. The model
  starts from the parsed `Document`. A missing document is `Document(None)`,
  which takes the same path as a missing root.
- `_getDocumentData` only forwards its arguments, so `ParseDataSubtree` is
  called directly.
- Date and Luxon arithmetic is the `Clock` parameter: `millis` and `plus` are
  any functions. The model does not capture NaN from unparsable timestamps,
  the exact `toISO` text, or the UTC offset that `plus` is assumed to keep. It
  also does not capture that an end comes after its start.
- `toLowerCase` is modelled on ASCII letters only. Non-ASCII lower-casing is
  not captured.
- `slugify` on a non-string returns its input. The model's attributes are
  always strings, and an absent `type` gives no suffix, as in the source.
- Error messages built with `JSON.stringify` are not modelled. Each throw is
  an `Error` variant carrying the data it names: the layout key and both
  counts for a mismatch, and the message for an invalid root.
- `parse` in `parameter.js` writes the defaults back into the caller's
  `options` object. The model passes a normalized `Config` by value instead.
- Objects are modelled as maps. In-place `_.extend` on `memo` and aliasing
  between results are not modelled, and neither are JavaScript prototype keys
  or object key order.
- `currentLayoutTime ?? {}` guards a hole in the children array; a sequence
  of nodes has no holes.
- Parameter.FormatValuesWithTimeLayouts: requires the cursor's children to
  fit the frames. An entry built from an `undefined` frame is not modelled.
  The only caller guarantees the requirement through its count check
  (`ValueChildrenWithinCount`).
- The declaration files and the test harnesses are not part of this model.
  The tests in `test/parser.test.js` appear only as worked examples.

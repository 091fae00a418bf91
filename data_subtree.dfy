/** The orchestrator: from the children of the `data` node it builds every
    time layout, then every parameter group against those layouts, then every
    location, and joins locations and parameters on their location key. */
module DataSubtree {
  import opened Tree
  import opened TimeLayout
  import opened Location
  import opened Parameter

  /** The names of the `data` node's children that the parse collects. */
  const TimeLayoutTag: string := "time-layout"
  const ParametersTag: string := "parameters"
  const LocationTag: string := "location"

  /** What a location key maps to in the result: the point's attributes, and
      the records of the parameter group for that key, `undefined` when no
      group names it. */
  datatype Point = Point(location: map<string, string>, values: Option<map<string, Record>>)

  /** `_unwrap`: folds one-entry maps into one map; a later map's entry
      replaces an earlier one for the same key, whole. */
  function Unwrap<V>(objects: seq<map<string, V>>): (r: map<string, V>)
    ensures objects != [] ==>
      forall k :: k in objects[|objects| - 1] ==> k in r && r[k] == objects[|objects| - 1][k]
    decreases |objects|
  {
    if objects == [] then map[]
    else Unwrap(objects[..|objects| - 1]) + objects[|objects| - 1]
  }

  /** The keys of the unwrapped map are the keys of all the maps. */
  lemma {:induction false} UnwrapKeys<V>(objects: seq<map<string, V>>)
    ensures forall k :: k in Unwrap(objects) <==> exists i :: 0 <= i < |objects| && k in objects[i]
    decreases |objects|
  {
    if objects != [] {
      var n := |objects| - 1;
      UnwrapKeys(objects[..n]);
      assert forall i :: 0 <= i < n ==> objects[..n][i] == objects[i];
    }
  }

  /** The value of a key is the one in the last map that holds it. */
  lemma {:induction false} UnwrapLastWins<V>(objects: seq<map<string, V>>, i: nat, k: string)
    requires i < |objects| && k in objects[i]
    requires forall j :: i < j < |objects| ==> k !in objects[j]
    ensures k in Unwrap(objects) && Unwrap(objects)[k] == objects[i][k]
    decreases |objects|
  {
    var n := |objects| - 1;
    var init := objects[..n];
    assert Unwrap(objects) == Unwrap(init) + objects[n];
    if i < n {
      assert init[i] == objects[i];
      assert forall j :: i < j < |init| ==> init[j] == objects[j];
      UnwrapLastWins(init, i, k);
      assert k !in objects[n];
    }
  }

  /** One map unwraps to itself. */
  lemma UnwrapSingleton<V>(m: map<string, V>)
    ensures Unwrap([m]) == m
  {
    assert [m][..0] == [];
  }

  /** The callback handed to `map` over the `time-layout` children. */
  function LayoutParser(clock: Clock): Node -> Result<map<string, seq<Frame>>> {
    n => ParseTimeLayout(n, clock)
  }

  /** The callback handed to `map` over the `parameters` children. */
  function GroupParser(layouts: map<string, seq<Frame>>, options: Options)
    : Node -> Result<map<string, map<string, Record>>>
  {
    n => ParseParameters(layouts, n, options)
  }

  /** `_getTimeLayouts`: every `time-layout` child, parsed in order. */
  function GetTimeLayouts(dataSets: seq<Node>, clock: Clock): (r: Result<map<string, seq<Frame>>>)
    ensures r.Err? ==> r.error in {InvalidTimeLayout, MissingLayoutKey}
    ensures r.Err? ==> LayoutFailsFirst(WhereNamed(dataSets, TimeLayoutTag), clock, r.error)
  {
    var nodes := WhereNamed(dataSets, TimeLayoutTag);
    var parsed := Traverse(nodes, LayoutParser(clock));
    if parsed.Err? then
      LayoutsFirstError(nodes, clock);
      Err(parsed.error)
    else
      Ok(Unwrap(parsed.value))
  }

  /** Some child fails with `e` and every child before it parses. */
  ghost predicate LayoutFailsFirst(nodes: seq<Node>, clock: Clock, e: Error) {
    exists i :: 0 <= i < |nodes| && ParseTimeLayout(nodes[i], clock) == Err(e) &&
      forall j :: 0 <= j < i ==> ParseTimeLayout(nodes[j], clock).Ok?
  }

  /** The error of the layout `map` is that of the first child that fails. */
  lemma LayoutsFirstError(nodes: seq<Node>, clock: Clock)
    requires Traverse(nodes, LayoutParser(clock)).Err?
    ensures LayoutFailsFirst(nodes, clock, Traverse(nodes, LayoutParser(clock)).error)
  {
    var parse := LayoutParser(clock);
    var e := Traverse(nodes, parse).error;
    var i :| 0 <= i < |nodes| && parse(nodes[i]) == Err(e) && forall j :: 0 <= j < i ==> parse(nodes[j]).Ok?;
    forall j | 0 <= j < i ensures ParseTimeLayout(nodes[j], clock).Ok? {
      assert parse(nodes[j]).Ok?;
    }
    assert ParseTimeLayout(nodes[i], clock) == Err(e);
  }

  /** The layouts are found exactly when every `time-layout` child parses. */
  lemma GetTimeLayoutsOk(dataSets: seq<Node>, clock: Clock)
    ensures var nodes := WhereNamed(dataSets, TimeLayoutTag);
      GetTimeLayouts(dataSets, clock).Ok? <==>
        forall i :: 0 <= i < |nodes| ==> ParseTimeLayout(nodes[i], clock).Ok?
  {
    var nodes := WhereNamed(dataSets, TimeLayoutTag);
    var parse := LayoutParser(clock);
    var parsed := Traverse(nodes, parse);
    assert GetTimeLayouts(dataSets, clock).Ok? == parsed.Ok?;
    if parsed.Ok? {
      forall i | 0 <= i < |nodes| ensures ParseTimeLayout(nodes[i], clock).Ok? {
        assert parse(nodes[i]) == ParseTimeLayout(nodes[i], clock);
      }
    } else {
      LayoutsFirstError(nodes, clock);
    }
  }

  /** The layout keys are the keys of the `time-layout` children. */
  lemma GetTimeLayoutsKeys(dataSets: seq<Node>, clock: Clock)
    requires GetTimeLayouts(dataSets, clock).Ok?
    ensures forall k :: k in GetTimeLayouts(dataSets, clock).value <==>
      DeclaresLayout(WhereNamed(dataSets, TimeLayoutTag), k)
  {
    forall k | true
      ensures k in GetTimeLayouts(dataSets, clock).value <==> DeclaresLayout(WhereNamed(dataSets, TimeLayoutTag), k)
    {
      LayoutKey(dataSets, clock, k);
    }
  }

  /** Some `time-layout` node has children whose layout key is `k`. */
  ghost predicate DeclaresLayout(nodes: seq<Node>, k: string) {
    exists i :: 0 <= i < |nodes| && nodes[i].children.Some? && GetKey(nodes[i].children.value) == Ok(k)
  }

  /** One key is a layout key exactly when some `time-layout` child declares it. */
  lemma LayoutKey(dataSets: seq<Node>, clock: Clock, k: string)
    requires GetTimeLayouts(dataSets, clock).Ok?
    ensures k in GetTimeLayouts(dataSets, clock).value <==> DeclaresLayout(WhereNamed(dataSets, TimeLayoutTag), k)
  {
    var nodes := WhereNamed(dataSets, TimeLayoutTag);
    var parsed := Traverse(nodes, LayoutParser(clock)).value;
    assert GetTimeLayouts(dataSets, clock).value == Unwrap(parsed);
    UnwrapKeys(parsed);
    if k in Unwrap(parsed) {
      var i :| 0 <= i < |parsed| && k in parsed[i];
      assert ParseTimeLayout(nodes[i], clock) == Ok(parsed[i]);
    }
    if exists i :: 0 <= i < |nodes| && nodes[i].children.Some? && GetKey(nodes[i].children.value) == Ok(k) {
      var i :| 0 <= i < |nodes| && nodes[i].children.Some? && GetKey(nodes[i].children.value) == Ok(k);
      assert ParseTimeLayout(nodes[i], clock) == Ok(parsed[i]);
      assert k in parsed[i];
    }
  }

  /** A second `time-layout` with the same key replaces the first: the key
      maps to the frames of the last layout that declares it. */
  lemma LastLayoutWins(dataSets: seq<Node>, clock: Clock, i: nat, k: string)
    requires GetTimeLayouts(dataSets, clock).Ok?
    requires i < |WhereNamed(dataSets, TimeLayoutTag)|
    requires var n := WhereNamed(dataSets, TimeLayoutTag)[i];
      n.children.Some? && GetKey(n.children.value) == Ok(k)
    requires forall j :: i < j < |WhereNamed(dataSets, TimeLayoutTag)| ==>
      var n := WhereNamed(dataSets, TimeLayoutTag)[j];
      n.children.None? || GetKey(n.children.value) != Ok(k)
    ensures k in GetTimeLayouts(dataSets, clock).value
    ensures GetTimeLayouts(dataSets, clock).value[k] ==
      TimeFrames(WhereNamed(dataSets, TimeLayoutTag)[i].children.value, clock)
  {
    var nodes := WhereNamed(dataSets, TimeLayoutTag);
    var parsed := Traverse(nodes, LayoutParser(clock)).value;
    assert ParseTimeLayout(nodes[i], clock) == Ok(parsed[i]);
    assert k in parsed[i];
    forall j | i < j < |parsed| ensures k !in parsed[j] {
      assert ParseTimeLayout(nodes[j], clock) == Ok(parsed[j]);
    }
    UnwrapLastWins(parsed, i, k);
  }

  /** `_getParameters`: every `parameters` child, parsed in order against the
      same layouts. */
  function GetParameters(dataSets: seq<Node>, layouts: map<string, seq<Frame>>, options: Options)
    : (r: Result<map<string, map<string, Record>>>)
    ensures r.Err? ==>
      r.error == MissingApplicableLocation || r.error.TypeError? || r.error.CountMismatch?
    ensures r.Err? ==> GroupFailsFirst(WhereNamed(dataSets, ParametersTag), layouts, options, r.error)
  {
    var groups := WhereNamed(dataSets, ParametersTag);
    var parsed := Traverse(groups, GroupParser(layouts, options));
    if parsed.Err? then
      GroupsFirstError(groups, layouts, options);
      Err(parsed.error)
    else
      Ok(Unwrap(parsed.value))
  }

  /** Some group fails with `e` and every group before it parses. */
  ghost predicate GroupFailsFirst(
    groups: seq<Node>, layouts: map<string, seq<Frame>>, options: Options, e: Error)
  {
    exists i :: 0 <= i < |groups| && ParseParameters(layouts, groups[i], options) == Err(e) &&
      forall j :: 0 <= j < i ==> ParseParameters(layouts, groups[j], options).Ok?
  }

  /** The error of the parameter `map` is that of the first group that fails. */
  lemma GroupsFirstError(groups: seq<Node>, layouts: map<string, seq<Frame>>, options: Options)
    requires Traverse(groups, GroupParser(layouts, options)).Err?
    ensures GroupFailsFirst(groups, layouts, options, Traverse(groups, GroupParser(layouts, options)).error)
  {
    var parse := GroupParser(layouts, options);
    var e := Traverse(groups, parse).error;
    var i :| 0 <= i < |groups| && parse(groups[i]) == Err(e) && forall j :: 0 <= j < i ==> parse(groups[j]).Ok?;
    forall j | 0 <= j < i ensures ParseParameters(layouts, groups[j], options).Ok? {
      assert parse(groups[j]).Ok?;
    }
    assert ParseParameters(layouts, groups[i], options) == Err(e);
  }

  /** The parameters are found exactly when every `parameters` child parses. */
  lemma GetParametersOk(dataSets: seq<Node>, layouts: map<string, seq<Frame>>, options: Options)
    ensures var groups := WhereNamed(dataSets, ParametersTag);
      GetParameters(dataSets, layouts, options).Ok? <==>
        forall i :: 0 <= i < |groups| ==> ParseParameters(layouts, groups[i], options).Ok?
  {
    var groups := WhereNamed(dataSets, ParametersTag);
    var parse := GroupParser(layouts, options);
    var parsed := Traverse(groups, parse);
    assert GetParameters(dataSets, layouts, options).Ok? == parsed.Ok?;
    if parsed.Ok? {
      forall i | 0 <= i < |groups| ensures ParseParameters(layouts, groups[i], options).Ok? {
        assert parse(groups[i]) == ParseParameters(layouts, groups[i], options);
      }
    } else {
      GroupsFirstError(groups, layouts, options);
    }
  }

  /** `_getLocations`: every `location` child, parsed in order. */
  function GetLocations(dataSets: seq<Node>): (r: Result<map<string, map<string, string>>>)
    ensures r.Err? ==> r.error in {InvalidLocation, MissingLocationKey, MissingPoint}
    ensures r.Err? ==> LocationFailsFirst(WhereNamed(dataSets, LocationTag), r.error)
  {
    var nodes := WhereNamed(dataSets, LocationTag);
    var parsed := Traverse(nodes, ParseLocation);
    if parsed.Err? then
      LocationsFirstError(nodes);
      Err(parsed.error)
    else
      Ok(Unwrap(parsed.value))
  }

  /** Some child fails with `e` and every child before it parses. */
  ghost predicate LocationFailsFirst(nodes: seq<Node>, e: Error) {
    exists i :: 0 <= i < |nodes| && ParseLocation(nodes[i]) == Err(e) &&
      forall j :: 0 <= j < i ==> ParseLocation(nodes[j]).Ok?
  }

  /** The error of the location `map` is that of the first child that fails. */
  lemma LocationsFirstError(nodes: seq<Node>)
    requires Traverse(nodes, ParseLocation).Err?
    ensures LocationFailsFirst(nodes, Traverse(nodes, ParseLocation).error)
  {
    var e := Traverse(nodes, ParseLocation).error;
    var i :| 0 <= i < |nodes| && ParseLocation(nodes[i]) == Err(e) &&
      forall j :: 0 <= j < i ==> ParseLocation(nodes[j]).Ok?;
  }

  /** The locations are found exactly when every `location` child parses. */
  lemma GetLocationsOk(dataSets: seq<Node>)
    ensures var nodes := WhereNamed(dataSets, LocationTag);
      GetLocations(dataSets).Ok? <==> forall i :: 0 <= i < |nodes| ==> ParseLocation(nodes[i]).Ok?
  {
    var nodes := WhereNamed(dataSets, LocationTag);
    var parsed := Traverse(nodes, ParseLocation);
    assert GetLocations(dataSets).Ok? <==> parsed.Ok?;
    if parsed.Ok? {
      forall i | 0 <= i < |nodes| ensures ParseLocation(nodes[i]).Ok? {
        assert ParseLocation.requires(nodes[i]) && Ok(parsed.value[i]) == ParseLocation(nodes[i]);
      }
    }
  }

  /** The location keys are the keys of the `location` children. */
  lemma GetLocationsKeys(dataSets: seq<Node>)
    requires GetLocations(dataSets).Ok?
    ensures forall k :: k in GetLocations(dataSets).value <==> DeclaresLocation(WhereNamed(dataSets, LocationTag), k)
  {
    forall k | true
      ensures k in GetLocations(dataSets).value <==> DeclaresLocation(WhereNamed(dataSets, LocationTag), k)
    {
      LocationKey(dataSets, k);
    }
  }

  /** Some `location` node has children whose location key is `k`. */
  ghost predicate DeclaresLocation(nodes: seq<Node>, k: string) {
    exists i :: 0 <= i < |nodes| && nodes[i].children.Some? && GetLocationKey(nodes[i].children.value) == Ok(k)
  }

  /** One key is a location key exactly when some `location` child declares it. */
  lemma LocationKey(dataSets: seq<Node>, k: string)
    requires GetLocations(dataSets).Ok?
    ensures k in GetLocations(dataSets).value <==> DeclaresLocation(WhereNamed(dataSets, LocationTag), k)
  {
    var nodes := WhereNamed(dataSets, LocationTag);
    var parsed := Traverse(nodes, ParseLocation).value;
    assert GetLocations(dataSets).value == Unwrap(parsed);
    UnwrapKeys(parsed);
    if k in Unwrap(parsed) {
      var i :| 0 <= i < |parsed| && k in parsed[i];
      assert ParseLocation(nodes[i]) == Ok(parsed[i]);
    }
    if exists i :: 0 <= i < |nodes| && nodes[i].children.Some? &&
        GetLocationKey(nodes[i].children.value) == Ok(k) {
      var i :| 0 <= i < |nodes| && nodes[i].children.Some? &&
        GetLocationKey(nodes[i].children.value) == Ok(k);
      assert ParseLocation(nodes[i]) == Ok(parsed[i]);
      assert k in parsed[i];
    }
  }

  /** A second `location` with the same key replaces the first: the key maps
      to the point of the last location that declares it. */
  lemma LastLocationWins(dataSets: seq<Node>, i: nat, k: string)
    requires GetLocations(dataSets).Ok?
    requires i < |WhereNamed(dataSets, LocationTag)|
    requires var n := WhereNamed(dataSets, LocationTag)[i];
      n.children.Some? && GetLocationKey(n.children.value) == Ok(k)
    requires forall j :: i < j < |WhereNamed(dataSets, LocationTag)| ==>
      var n := WhereNamed(dataSets, LocationTag)[j];
      n.children.None? || GetLocationKey(n.children.value) != Ok(k)
    ensures k in GetLocations(dataSets).value
    ensures var n := WhereNamed(dataSets, LocationTag)[i];
      GetLocationPoint(n.children.value) == Ok(GetLocations(dataSets).value[k])
  {
    var nodes := WhereNamed(dataSets, LocationTag);
    var parsed := Traverse(nodes, ParseLocation).value;
    assert ParseLocation(nodes[i]) == Ok(parsed[i]);
    assert k in parsed[i];
    forall j | i < j < |parsed| ensures k !in parsed[j] {
      assert ParseLocation(nodes[j]) == Ok(parsed[j]);
    }
    UnwrapLastWins(parsed, i, k);
  }

  /** `_mergeLocationsAndParameters`: the locations decide the keys;
      parameters of a key without a location are dropped. */
  function MergeLocationsAndParameters(
    locations: map<string, map<string, string>>, parameters: map<string, map<string, Record>>)
    : (r: map<string, Point>)
    ensures r.Keys == locations.Keys
    ensures forall k :: k in r ==> r[k].location == locations[k]
    ensures forall k :: k in r ==> (r[k].values.Some? <==> k in parameters)
    ensures forall k :: k in r && k in parameters ==> r[k].values.value == parameters[k]
  {
    map k | k in locations :: Point(locations[k], if k in parameters then Some(parameters[k]) else None)
  }

  /** One location and one group with the same key merge into one point. */
  lemma MergeSingleton(k: string, location: map<string, string>, records: map<string, Record>)
    ensures MergeLocationsAndParameters(map[k := location], map[k := records]) ==
      map[k := Point(location, Some(records))]
  {
    var r := MergeLocationsAndParameters(map[k := location], map[k := records]);
    assert r.Keys == {k};
    assert r[k] == Point(location, Some(records));
  }

  /** `parse`: layouts, then parameters, then locations, then the merge. A
      `data` node without children yields no layouts, groups or locations. */
  function ParseDataSubtree(data: Node, options: Options, clock: Clock): (r: Result<map<string, Point>>)
    ensures r.Ok? ==>
      GetLocations(data.children.GetOr([])).Ok? &&
      r.value.Keys == GetLocations(data.children.GetOr([])).value.Keys
  {
    var dataSets := data.children.GetOr([]);
    var layouts :- GetTimeLayouts(dataSets, clock);
    var parameters :- GetParameters(dataSets, layouts, options);
    var locations :- GetLocations(dataSets);
    Ok(MergeLocationsAndParameters(locations, parameters))
  }

  /** A failing stage ends the parse with its own error, and the stages run
      in the order layouts, parameters, locations. */
  lemma ErrorsPropagateInOrder(data: Node, options: Options, clock: Clock)
    ensures var dataSets := data.children.GetOr([]);
      var layouts := GetTimeLayouts(dataSets, clock);
      && (layouts.Err? ==> ParseDataSubtree(data, options, clock) == Err(layouts.error))
      && (layouts.Ok? && GetParameters(dataSets, layouts.value, options).Err? ==>
            ParseDataSubtree(data, options, clock) == Err(GetParameters(dataSets, layouts.value, options).error))
      && (layouts.Ok? && GetParameters(dataSets, layouts.value, options).Ok? && GetLocations(dataSets).Err? ==>
            ParseDataSubtree(data, options, clock) == Err(GetLocations(dataSets).error))
  {
  }

  /** When every stage succeeds, the parse succeeds with the merge of the
      locations and the parameters. */
  lemma StagesSucceed(data: Node, options: Options, clock: Clock)
    ensures var dataSets := data.children.GetOr([]);
      var layouts := GetTimeLayouts(dataSets, clock);
      layouts.Ok? && GetParameters(dataSets, layouts.value, options).Ok? && GetLocations(dataSets).Ok? ==>
        ParseDataSubtree(data, options, clock) ==
          Ok(MergeLocationsAndParameters(GetLocations(dataSets).value,
                                         GetParameters(dataSets, layouts.value, options).value))
  {
  }

  /** The key set of the result is exactly the set of keys of the `location`
      children. */
  lemma ResultKeysAreLocationKeys(data: Node, options: Options, clock: Clock)
    requires ParseDataSubtree(data, options, clock).Ok?
    ensures forall k :: k in ParseDataSubtree(data, options, clock).value <==>
      DeclaresLocation(WhereNamed(data.children.GetOr([]), LocationTag), k)
  {
    var dataSets := data.children.GetOr([]);
    var layouts := GetTimeLayouts(dataSets, clock).value;
    assert ParseDataSubtree(data, options, clock).value.Keys == GetLocations(dataSets).value.Keys;
    GetLocationsKeys(dataSets);
  }

  /** The parameter keys are the applicable locations of the `parameters`
      children. */
  lemma GetParametersKeys(dataSets: seq<Node>, layouts: map<string, seq<Frame>>, options: Options)
    requires GetParameters(dataSets, layouts, options).Ok?
    ensures forall k :: k in GetParameters(dataSets, layouts, options).value <==>
      AppliesTo(WhereNamed(dataSets, ParametersTag), k)
  {
    forall k | true
      ensures k in GetParameters(dataSets, layouts, options).value <==> AppliesTo(WhereNamed(dataSets, ParametersTag), k)
    {
      ParameterKey(dataSets, layouts, options, k);
    }
  }

  /** Some `parameters` node applies to location `k`. */
  ghost predicate AppliesTo(groups: seq<Node>, k: string) {
    exists i :: 0 <= i < |groups| && ApplicableLocation(groups[i]) == Ok(k)
  }

  /** One key has parameters exactly when some `parameters` child applies to it. */
  lemma ParameterKey(dataSets: seq<Node>, layouts: map<string, seq<Frame>>, options: Options, k: string)
    requires GetParameters(dataSets, layouts, options).Ok?
    ensures k in GetParameters(dataSets, layouts, options).value <==> AppliesTo(WhereNamed(dataSets, ParametersTag), k)
  {
    var groups := WhereNamed(dataSets, ParametersTag);
    var parsed := Traverse(groups, GroupParser(layouts, options)).value;
    assert GetParameters(dataSets, layouts, options).value == Unwrap(parsed);
    UnwrapKeys(parsed);
    if k in Unwrap(parsed) {
      var i :| 0 <= i < |parsed| && k in parsed[i];
      assert ParseParameters(layouts, groups[i], options) == Ok(parsed[i]);
    }
    if exists i :: 0 <= i < |groups| && ApplicableLocation(groups[i]) == Ok(k) {
      var i :| 0 <= i < |groups| && ApplicableLocation(groups[i]) == Ok(k);
      assert ParseParameters(layouts, groups[i], options) == Ok(parsed[i]);
      assert k in parsed[i];
    }
  }

  /** A second `parameters` group for the same location replaces the whole
      record map of the first: the key maps to the records of the last group
      that names it. */
  lemma LastParameterGroupWins(
    dataSets: seq<Node>, layouts: map<string, seq<Frame>>, options: Options, i: nat, k: string)
    requires GetParameters(dataSets, layouts, options).Ok?
    requires i < |WhereNamed(dataSets, ParametersTag)|
    requires ApplicableLocation(WhereNamed(dataSets, ParametersTag)[i]) == Ok(k)
    requires forall j :: i < j < |WhereNamed(dataSets, ParametersTag)| ==>
      ApplicableLocation(WhereNamed(dataSets, ParametersTag)[j]) != Ok(k)
    ensures k in GetParameters(dataSets, layouts, options).value
    ensures var group := WhereNamed(dataSets, ParametersTag)[i];
      ParseDataSets(group.children.GetOr([]), layouts, Normalize(options)) ==
        Ok(GetParameters(dataSets, layouts, options).value[k])
  {
    var groups := WhereNamed(dataSets, ParametersTag);
    var parsed := Traverse(groups, GroupParser(layouts, options)).value;
    assert ParseParameters(layouts, groups[i], options) == Ok(parsed[i]);
    assert k in parsed[i];
    forall j | i < j < |groups| ensures k !in parsed[j] {
      assert ParseParameters(layouts, groups[j], options) == Ok(parsed[j]);
    }
    UnwrapLastWins(parsed, i, k);
  }
}

/** The parameter parser: a `parameters` node names one location, and each of
    its children (a dataSet such as `temperature` or `weather`) becomes a
    record whose `values` are its `value` / `weather-conditions` children
    zipped, in order, with the frames of the time layout it references. */
module Parameter {
  import opened Tree
  import opened Utils
  import opened TimeLayout

  /** The caller's options, each of which may be left out. */
  datatype Options = Options(
    skipPropertiesWithNonMatchingEntryCount: Option<bool>,
    skippedAttributes: Option<seq<string>>)

  /** The options once their defaults are filled in. `skipped` lists record
      keys and attribute names alike. */
  datatype Config = Config(skipMismatched: bool, skipped: seq<string>)

  /** The `??` defaults: do not skip mismatched dataSets, skip no names. */
  function Normalize(options: Options): (cfg: Config)
    ensures options.skipPropertiesWithNonMatchingEntryCount.None? ==> !cfg.skipMismatched
    ensures options.skippedAttributes.None? ==> cfg.skipped == []
    ensures options.skipPropertiesWithNonMatchingEntryCount.Some? ==>
      cfg.skipMismatched == options.skipPropertiesWithNonMatchingEntryCount.value
    ensures options.skippedAttributes.Some? ==> cfg.skipped == options.skippedAttributes.value
  {
    Config(options.skipPropertiesWithNonMatchingEntryCount.GetOr(false),
           options.skippedAttributes.GetOr([]))
  }

  /** Writing the defaults back into the options and normalizing again
      changes nothing. */
  lemma NormalizeIdempotent(options: Options)
    ensures var cfg := Normalize(options);
      Normalize(Options(Some(cfg.skipMismatched), Some(cfg.skipped))) == cfg
  {
  }

  /** A field of a weather condition: JavaScript's `null`, `undefined` (an
      attribute the sub-condition does not have) or a string. */
  datatype Nullable = Null | Undefined | Text(text: string)

  datatype WeatherCondition = WeatherCondition(
    summary: Option<string>,
    coverage: Nullable,
    intensity: Nullable,
    weatherType: Nullable,
    qualifier: Nullable)

  /** The value of one entry: a `value` child's content, or a decoded
      `weather-conditions` child. */
  datatype Value = Scalar(content: Option<string>) | Weather(condition: WeatherCondition)

  /** `{start-time, end-time, value}`. */
  datatype Entry = Entry(frame: Frame, value: Value)

  /** A record maps attribute names to their strings, and `values` to the
      entries. */
  datatype Field = Attribute(text: string) | Values(entries: seq<Entry>)

  type Record = map<string, Field>

  /** `_getLocationKey`: the group's `applicable-location` attribute, which
      must be present and not empty. */
  function ApplicableLocation(group: Node): (r: Result<string>)
    ensures r.Ok? <==>
      group.attributes.Some? && "applicable-location" in group.attributes.value &&
      group.attributes.value["applicable-location"] != ""
    ensures r.Ok? ==> r.value == group.attributes.value["applicable-location"]
    ensures r.Err? ==> r.error == MissingApplicableLocation
  {
    if group.attributes.Some? && "applicable-location" in group.attributes.value &&
       group.attributes.value["applicable-location"] != ""
    then Ok(group.attributes.value["applicable-location"])
    else Err(MissingApplicableLocation)
  }

  /** The record key: the tag name, followed by `-` and the slug of the
      `type` attribute when that slug is not empty. */
  function RecordKey(name: string, attrs: map<string, string>): (key: string)
    ensures name <= key
    ensures key == name <==> "type" !in attrs || attrs["type"] == ""
    ensures key != name ==> key[|name|] == '-' && IsSlug(key[|name| + 1..])
    ensures key != name ==> SlugChars(key[|name| + 1..]) == SlugChars(Lower(attrs["type"]))
  {
    var slug := if "type" in attrs then Slugify(attrs["type"]) else "";
    if |slug| > 0 then
      var key := name + "-" + slug;
      assert key[|name| + 1..] == slug;
      key
    else name
  }

  /** A non-empty `type` always yields the suffixed key, since its slug is
      never empty. */
  lemma RecordKeyOfType(name: string, attrs: map<string, string>)
    requires "type" in attrs && attrs["type"] != ""
    ensures RecordKey(name, attrs) == name + "-" + Slugify(attrs["type"])
  {
  }

  /** The key of a dataSet of type `hourly`, as in `temperature-hourly`. */
  lemma RecordKeyHourlyType(name: string, attrs: map<string, string>)
    requires "type" in attrs && attrs["type"] == "hourly"
    ensures RecordKey(name, attrs) == name + "-" + "hourly"
  {
    assert Slugify(attrs["type"]) == "hourly" by {
      SlugifyHourly();
    }
    RecordKeyOfType(name, attrs);
  }

  /** A type with a space: `12 hour` becomes `12-hour`. */
  lemma RecordKeyTwelveHour(name: string)
    ensures RecordKey(name, map["type" := "12 hour"]) == name + "-" + "12-hour"
  {
    var attrs := map["type" := "12 hour"];
    assert Slugify(attrs["type"]) == "12-hour" by {
      SlugifyTwelveHour(attrs["type"]);
    }
    RecordKeyOfType(name, attrs);
  }

  lemma RecordKeyUntyped()
    ensures RecordKey("weather", map["time-layout" := "k-p12h-n7-1"]) == "weather"
  {
  }

  predicate IsValueChild(n: Node) {
    n.name == "value" || n.name == "weather-conditions"
  }

  /** The children the frame cursor advances on, in document order. */
  function ValueChildren(cs: seq<Node>): (r: seq<Node>)
    ensures forall n :: n in r ==> IsValueChild(n)
    decreases |cs|
  {
    if cs == [] then []
    else ValueChildren(cs[..|cs| - 1]) + (if IsValueChild(cs[|cs| - 1]) then [cs[|cs| - 1]] else [])
  }

  /** The number of children not called `name`: the count compared with the
      layout's frame count. */
  function NonNameCount(cs: seq<Node>): (r: nat)
    ensures r <= |cs|
    decreases |cs|
  {
    if cs == [] then 0
    else NonNameCount(cs[..|cs| - 1]) + (if cs[|cs| - 1].name != "name" then 1 else 0)
  }

  /** The cursor's children are among those counted, so a passed count check
      keeps the cursor within the frames. */
  lemma {:induction false} ValueChildrenWithinCount(cs: seq<Node>)
    ensures |ValueChildren(cs)| <= NonNameCount(cs)
    decreases |cs|
  {
    if cs != [] {
      ValueChildrenWithinCount(cs[..|cs| - 1]);
    }
  }

  /** The cursor's children of a prefix are a prefix of the cursor's children. */
  lemma {:induction false} ValueChildrenOfPrefix(cs: seq<Node>, i: nat)
    requires i <= |cs|
    ensures ValueChildren(cs[..i]) <= ValueChildren(cs)
    decreases |cs| - i
  {
    if i < |cs| {
      ValueChildrenOfPrefix(cs, i + 1);
      var p := cs[..i + 1];
      assert p[..|p| - 1] == cs[..i];
      var shorter, longer := ValueChildren(cs[..i]), ValueChildren(p);
      assert p[|p| - 1] == cs[i];
      assert longer == shorter + (if IsValueChild(cs[i]) then [cs[i]] else []);
      assert longer[..|shorter|] == shorter;
      assert ValueChildren(cs)[..|longer|] == longer;
      assert ValueChildren(cs)[..|shorter|] == longer[..|shorter|];
      assert |shorter| <= |longer| <= |ValueChildren(cs)|;
    } else {
      assert cs[..i] == cs;
    }
  }

  function AttributeOf(attrs: map<string, string>, name: string): Nullable {
    if name in attrs then Text(attrs[name]) else Undefined
  }

  /** A `weather-conditions` child: `weather-summary` from its own
      attributes, and coverage, intensity, weather type and qualifier from its
      first sub-condition only, all four `null` when it has none. Reading the
      attributes of a node that has none is a TypeError. */
  function DecodeWeather(n: Node): (r: Result<WeatherCondition>)
    ensures r.Err? ==> r.error.TypeError?
  {
    if n.attributes.None? then Err(TypeError(AttributesOf(n.name)))
    else
      var summary := if "weather-summary" in n.attributes.value
                     then Some(n.attributes.value["weather-summary"]) else None;
      if n.children.Some? && |n.children.value| > 0 then
        var first := n.children.value[0];
        if first.attributes.None? then Err(TypeError(AttributesOf(first.name)))
        else
          var a := first.attributes.value;
          Ok(WeatherCondition(summary, AttributeOf(a, "coverage"), AttributeOf(a, "intensity"),
                              AttributeOf(a, "weather-type"), AttributeOf(a, "qualifier")))
      else
        Ok(WeatherCondition(summary, Null, Null, Null, Null))
  }

  /** The value of one `value` or `weather-conditions` child. */
  function DecodeValue(n: Node): (r: Result<Value>)
    requires IsValueChild(n)
    ensures n.name == "value" ==> r == Ok(Scalar(n.content))
    ensures n.name == "weather-conditions" ==>
      (r.Ok? <==> DecodeWeather(n).Ok?) &&
      (r.Ok? ==> r.value == Weather(DecodeWeather(n).value)) &&
      (r.Err? ==> r.error == DecodeWeather(n).error)
  {
    if n.name == "value" then Ok(Scalar(n.content))
    else
      var w :- DecodeWeather(n);
      Ok(Weather(w))
  }

  /** Decoding fails exactly on a node, or a first sub-condition, without
      attributes. Otherwise the summary is the node's own `weather-summary`,
      and the four other fields are the first sub-condition's attributes, or
      all `null` when there is no sub-condition. */
  lemma DecodeWeatherFields(n: Node)
    ensures DecodeWeather(n).Err? <==>
      n.attributes.None? ||
      (n.children.Some? && |n.children.value| > 0 && n.children.value[0].attributes.None?)
    ensures DecodeWeather(n).Ok? ==>
      var w := DecodeWeather(n).value;
      && (w.summary.Some? <==> "weather-summary" in n.attributes.value)
      && (w.summary.Some? ==> w.summary.value == n.attributes.value["weather-summary"])
    ensures DecodeWeather(n).Ok? && n.children.Some? && |n.children.value| > 0 ==>
      var w := DecodeWeather(n).value;
      var a := n.children.value[0].attributes.value;
      && w.coverage == AttributeOf(a, "coverage")
      && w.intensity == AttributeOf(a, "intensity")
      && w.weatherType == AttributeOf(a, "weather-type")
      && w.qualifier == AttributeOf(a, "qualifier")
    ensures DecodeWeather(n).Ok? && (n.children.None? || |n.children.value| == 0) ==>
      DecodeWeather(n).value == WeatherCondition(DecodeWeather(n).value.summary, Null, Null, Null, Null)
  {
  }

  /** A condition with no sub-condition decodes its summary and four nulls. */
  lemma WeatherWithoutSubConditions(n: Node)
    requires n.attributes.Some?
    requires n.children.None? || n.children == Some([])
    ensures DecodeWeather(n).Ok?
    ensures var summary := if "weather-summary" in n.attributes.value
                           then Some(n.attributes.value["weather-summary"]) else None;
      DecodeWeather(n).value == WeatherCondition(summary, Null, Null, Null, Null)
  {
  }

  /** Only the first sub-condition is read: any that follow it are dropped. */
  lemma WeatherReadsFirstSubCondition(n: Node, first: Node, rest: seq<Node>)
    requires n.children == Some([first] + rest)
    ensures DecodeWeather(n) == DecodeWeather(n.(children := Some([first])))
  {
  }

  /** The condition of the forecast document's tests. */
  lemma WeatherExample()
    ensures DecodeWeather(
      Node("weather-conditions", Some(map["weather-summary" := "Chance Rain Showers"]),
        Some([Node("value",
          Some(map["coverage" := "chance", "intensity" := "light",
                   "weather-type" := "rain showers", "qualifier" := "none"]),
          Some([]), None)]),
        None))
      == Ok(WeatherCondition(Some("Chance Rain Showers"), Text("chance"), Text("light"),
                             Text("rain showers"), Text("none")))
  {
  }

  /** The zip of the cursor's children with the frames, stopping at the
      first child that cannot be decoded. */
  function AlignValues(vs: seq<Node>, frames: seq<Frame>): (r: Result<seq<Entry>>)
    requires forall n :: n in vs ==> IsValueChild(n)
    requires |vs| <= |frames|
    ensures r.Ok? ==> |r.value| == |vs|
    ensures r.Err? ==> r.error.TypeError?
    decreases |vs|
  {
    if vs == [] then Ok([])
    else
      var n := |vs| - 1;
      var init := vs[..n];
      assert forall k :: 0 <= k < n ==> init[k] == vs[k];
      var es :- AlignValues(init, frames);
      var v :- DecodeValue(vs[n]);
      Ok(es + [Entry(frames[n], v)])
  }

  /** The zip pairs the k-th cursor child with the k-th frame, or fails with
      the error of the first child that cannot be decoded. */
  lemma {:induction false} AlignValuesZips(vs: seq<Node>, frames: seq<Frame>)
    requires forall n :: n in vs ==> IsValueChild(n)
    requires |vs| <= |frames|
    ensures AlignValues(vs, frames).Ok? <==> forall k :: 0 <= k < |vs| ==> DecodeValue(vs[k]).Ok?
    ensures AlignValues(vs, frames).Ok? ==> |AlignValues(vs, frames).value| == |vs|
    ensures AlignValues(vs, frames).Ok? ==>
      forall k :: 0 <= k < |vs| ==> AlignValues(vs, frames).value[k] == Entry(frames[k], DecodeValue(vs[k]).value)
    ensures AlignValues(vs, frames).Err? ==>
      exists k :: 0 <= k < |vs| && DecodeValue(vs[k]) == Err(AlignValues(vs, frames).error) &&
        forall j :: 0 <= j < k ==> DecodeValue(vs[j]).Ok?
    decreases |vs|
  {
    if vs != [] {
      var n := |vs| - 1;
      var init := vs[..n];
      assert forall k :: 0 <= k < n ==> init[k] == vs[k];
      AlignValuesZips(init, frames);
    }
  }

  /** Once a prefix of the cursor's children fails to decode, every longer
      sequence fails with the same error. */
  lemma {:induction false} AlignErrorPersists(vs: seq<Node>, ws: seq<Node>, frames: seq<Frame>)
    requires forall n :: n in ws ==> IsValueChild(n)
    requires vs <= ws && |ws| <= |frames|
    requires AlignValues(vs, frames).Err?
    ensures AlignValues(ws, frames) == AlignValues(vs, frames)
    decreases |ws|
  {
    if |ws| > |vs| {
      var init := ws[..|ws| - 1];
      assert vs <= init;
      AlignErrorPersists(vs, init, frames);
    } else {
      assert vs == ws;
    }
  }

  /** The cursor's children grow by one child exactly when that child is a
      `value` or `weather-conditions`. */
  lemma ValueChildrenStep(cs: seq<Node>, i: nat)
    requires i < |cs|
    ensures ValueChildren(cs[..i + 1]) ==
      ValueChildren(cs[..i]) + (if IsValueChild(cs[i]) then [cs[i]] else [])
  {
    assert cs[..i + 1][..i] == cs[..i];
  }

  /** Zipping one more decodable child appends its entry on the next frame. */
  lemma AlignStep(vs: seq<Node>, v: Node, frames: seq<Frame>, es: seq<Entry>, x: Value)
    requires forall n :: n in vs ==> IsValueChild(n)
    requires IsValueChild(v) && |vs| < |frames|
    requires AlignValues(vs, frames) == Ok(es) && DecodeValue(v) == Ok(x)
    ensures AlignValues(vs + [v], frames) == Ok(es + [Entry(frames[|vs|], x)])
  {
    assert (vs + [v])[..|vs|] == vs;
  }

  /** The state of the walk after the first `i` children: the cursor stands
      after their `value` and `weather-conditions` children, and the results
      are the zip of those children with the frames. */
  ghost predicate Walked(values: seq<Node>, i: nat, frames: seq<Frame>, counter: nat, results: seq<Entry>) {
    && i <= |values|
    && |ValueChildren(values)| <= |frames|
    && ValueChildren(values[..i]) <= ValueChildren(values)
    && counter == |ValueChildren(values[..i])|
    && AlignValues(ValueChildren(values[..i]), frames) == Ok(results)
  }

  /** One iteration of the walk: a child that is not a `value` or
      `weather-conditions` leaves the zip as it is; one that decodes appends
      its entry on the cursor's frame; one that fails fails the whole zip. */
  lemma ZipStep(values: seq<Node>, i: nat, frames: seq<Frame>, counter: nat, results: seq<Entry>)
    requires i < |values| && Walked(values, i, frames, counter, results)
    ensures !IsValueChild(values[i]) ==> Walked(values, i + 1, frames, counter, results)
    ensures IsValueChild(values[i]) ==> counter < |frames|
    ensures IsValueChild(values[i]) && DecodeValue(values[i]).Ok? ==>
      Walked(values, i + 1, frames, counter + 1, results + [Entry(frames[counter], DecodeValue(values[i]).value)])
    ensures IsValueChild(values[i]) && DecodeValue(values[i]).Err? ==>
      AlignValues(ValueChildren(values), frames) == Err(DecodeValue(values[i]).error)
  {
    var done, next := ValueChildren(values[..i]), ValueChildren(values[..i + 1]);
    ValueChildrenStep(values, i);
    ValueChildrenOfPrefix(values, i + 1);
    if IsValueChild(values[i]) {
      assert next == done + [values[i]];
      match DecodeValue(values[i])
      case Ok(x) =>
        AlignStep(done, values[i], frames, results, x);
      case Err(e) =>
        assert next[..|next| - 1] == done;
        AlignErrorPersists(next, ValueChildren(values), frames);
    } else {
      assert next == done;
    }
  }

  /** `_formatValuesWithTimeLayouts`: walks all children with a separate
      frame cursor that advances on `value` and `weather-conditions` only. */
  method FormatValuesWithTimeLayouts(values: seq<Node>, timeFrames: seq<Frame>) returns (r: Result<seq<Entry>>)
    requires |ValueChildren(values)| <= |timeFrames|
    ensures r == AlignValues(ValueChildren(values), timeFrames)
    ensures r.Ok? ==> |r.value| == |ValueChildren(values)|
  {
    var i := 0;
    var timeFrameCounter := 0;
    var results: seq<Entry> := [];
    while i < |values|
      invariant Walked(values, i, timeFrames, timeFrameCounter, results)
    {
      var current := values[i];
      ZipStep(values, i, timeFrames, timeFrameCounter, results);
      if current.name == "value" {
        assert DecodeValue(current) == Ok(Scalar(current.content));
        results := results + [Entry(timeFrames[timeFrameCounter], Scalar(current.content))];
        timeFrameCounter := timeFrameCounter + 1;
      } else if current.name == "weather-conditions" {
        var condition := DecodeWeather(current);
        if condition.Err? {
          assert DecodeValue(current) == Err(condition.error);
          return Err(condition.error);
        }
        assert DecodeValue(current) == Ok(Weather(condition.value));
        results := results + [Entry(timeFrames[timeFrameCounter], Weather(condition.value))];
        timeFrameCounter := timeFrameCounter + 1;
      } else {
        assert !IsValueChild(current);
      }
      assert Walked(values, i + 1, timeFrames, timeFrameCounter, results);
      i := i + 1;
    }
    assert values[..i] == values;
    r := Ok(results);
  }

  /** The dataSet's attributes without the skipped names. */
  function FilteredAttributes(attrs: map<string, string>, skipped: seq<string>): (r: map<string, string>)
    ensures forall a :: a in r <==> a in attrs && a !in skipped
    ensures forall a :: a in r ==> r[a] == attrs[a]
  {
    map a | a in attrs && a !in skipped :: attrs[a]
  }

  /** The `for` loop that copies every attribute whose name is not skipped. */
  method FilterAttributes(attrs: map<string, string>, skipped: seq<string>) returns (filtered: map<string, string>)
    ensures filtered == FilteredAttributes(attrs, skipped)
    ensures forall a :: a in filtered <==> a in attrs && a !in skipped
    ensures forall a :: a in filtered ==> filtered[a] == attrs[a]
  {
    filtered := map[];
    var todo := attrs.Keys;
    while todo != {}
      invariant todo <= attrs.Keys
      invariant forall a :: a in filtered <==> a in attrs && a !in todo && a !in skipped
      invariant forall a :: a in filtered ==> filtered[a] == attrs[a]
      decreases todo
    {
      var a :| a in todo;
      if a !in skipped {
        filtered := filtered[a := attrs[a]];
      }
      todo := todo - {a};
    }
  }

  function AttributeFields(attrs: map<string, string>): Record {
    map a | a in attrs :: Attribute(attrs[a])
  }

  /** A dataSet passes the first gate when it has a non-empty `time-layout`
      attribute and its key is not skipped. */
  predicate Gated(dataSet: Node, cfg: Config) {
    && dataSet.attributes.Some?
    && "time-layout" in dataSet.attributes.value
    && dataSet.attributes.value["time-layout"] != ""
    && RecordKey(dataSet.name, dataSet.attributes.value) !in cfg.skipped
  }

  /** A gated dataSet whose non-`name` children match its layout's frames:
      the dataSets that produce a record. */
  predicate Accepted(dataSet: Node, layouts: map<string, seq<Frame>>, cfg: Config) {
    && Gated(dataSet, cfg)
    && dataSet.children.Some?
    && dataSet.attributes.value["time-layout"] in layouts
    && |layouts[dataSet.attributes.value["time-layout"]]| == NonNameCount(dataSet.children.value)
  }

  function KeyOf(dataSet: Node): string
    requires dataSet.attributes.Some?
  {
    RecordKey(dataSet.name, dataSet.attributes.value)
  }

  /** The entries of an accepted dataSet, when its children decode. */
  function EntriesOf(dataSet: Node, layouts: map<string, seq<Frame>>, cfg: Config): Result<seq<Entry>>
    requires Accepted(dataSet, layouts, cfg)
  {
    var cs := dataSet.children.value;
    ValueChildrenWithinCount(cs);
    AlignValues(ValueChildren(cs), layouts[dataSet.attributes.value["time-layout"]])
  }

  /** One step of the fold over the dataSets. */
  function AddDataSet(memo: map<string, Record>, dataSet: Node, layouts: map<string, seq<Frame>>, cfg: Config)
    : (r: Result<map<string, Record>>)
    ensures r.Ok? ==> memo.Keys <= r.value.Keys
    ensures r.Err? ==> r.error.TypeError? || r.error.CountMismatch?
    ensures Accepted(dataSet, layouts, cfg) && EntriesOf(dataSet, layouts, cfg).Err? ==>
      r == Err(EntriesOf(dataSet, layouts, cfg).error)
    ensures r.Err? && r.error.CountMismatch? ==>
      && Gated(dataSet, cfg) && dataSet.children.Some? && !cfg.skipMismatched
      && var layoutKey := dataSet.attributes.value["time-layout"];
         && layoutKey in layouts
         && |layouts[layoutKey]| != NonNameCount(dataSet.children.value)
         && r.error == CountMismatch(layoutKey, |layouts[layoutKey]|, NonNameCount(dataSet.children.value))
  {
    if dataSet.attributes.None? then Err(TypeError(AttributesOf(dataSet.name)))
    else if !Gated(dataSet, cfg) then Ok(memo)
    else if dataSet.children.None? then Err(TypeError(ChildrenOf(dataSet.name)))
    else
      var attrs := dataSet.attributes.value;
      var layoutKey := attrs["time-layout"];
      var count := NonNameCount(dataSet.children.value);
      if layoutKey !in layouts then Err(TypeError(FramesOf(layoutKey)))
      else if |layouts[layoutKey]| == count then
        var entries :- EntriesOf(dataSet, layouts, cfg);
        var key := KeyOf(dataSet);
        var prior := if key in memo then memo[key] else map[];
        Ok(memo[key := prior + AttributeFields(FilteredAttributes(attrs, cfg.skipped)) + map["values" := Values(entries)]])
      else if cfg.skipMismatched then Ok(memo)
      else Err(CountMismatch(layoutKey, |layouts[layoutKey]|, count))
  }

  /** `_parseParameters`: the fold over the dataSets, in document order. */
  function ParseDataSets(dataSets: seq<Node>, layouts: map<string, seq<Frame>>, cfg: Config)
    : (r: Result<map<string, Record>>)
    ensures r.Err? ==> r.error.TypeError? || r.error.CountMismatch?
    decreases |dataSets|
  {
    if dataSets == [] then Ok(map[])
    else
      var memo :- ParseDataSets(dataSets[..|dataSets| - 1], layouts, cfg);
      AddDataSet(memo, dataSets[|dataSets| - 1], layouts, cfg)
  }

  /** The keys of the result are exactly the keys of the accepted dataSets. */
  lemma {:induction false} ParsedKeys(dataSets: seq<Node>, layouts: map<string, seq<Frame>>, cfg: Config)
    requires ParseDataSets(dataSets, layouts, cfg).Ok?
    ensures forall k :: k in ParseDataSets(dataSets, layouts, cfg).value <==>
      exists i :: 0 <= i < |dataSets| && Accepted(dataSets[i], layouts, cfg) && KeyOf(dataSets[i]) == k
    decreases |dataSets|
  {
    if dataSets != [] {
      var n := |dataSets| - 1;
      var init := dataSets[..n];
      var memo := ParseDataSets(init, layouts, cfg).value;
      assert ParseDataSets(dataSets, layouts, cfg) == AddDataSet(memo, dataSets[n], layouts, cfg);
      ParsedKeys(init, layouts, cfg);
      AddDataSetKeys(memo, dataSets[n], layouts, cfg);
      assert forall i :: 0 <= i < n ==> init[i] == dataSets[i];
    }
  }

  /** One step of the fold adds the dataSet's key exactly when the dataSet
      is accepted. */
  lemma AddDataSetKeys(memo: map<string, Record>, dataSet: Node, layouts: map<string, seq<Frame>>, cfg: Config)
    requires AddDataSet(memo, dataSet, layouts, cfg).Ok?
    ensures forall k :: k in AddDataSet(memo, dataSet, layouts, cfg).value <==>
      k in memo || (Accepted(dataSet, layouts, cfg) && KeyOf(dataSet) == k)
  {
  }

  /** A skipped key never appears in the result. */
  lemma SkippedKeysAbsent(dataSets: seq<Node>, layouts: map<string, seq<Frame>>, cfg: Config)
    requires ParseDataSets(dataSets, layouts, cfg).Ok?
    ensures forall k :: k in cfg.skipped ==> k !in ParseDataSets(dataSets, layouts, cfg).value
  {
    ParsedKeys(dataSets, layouts, cfg);
  }

  /** Without the skip option, a successful fold means every gated dataSet
      had children, a known layout and a matching count: a mismatch is never
      silently dropped. */
  lemma {:induction false} NoSilentMismatch(dataSets: seq<Node>, layouts: map<string, seq<Frame>>, cfg: Config)
    requires !cfg.skipMismatched
    requires ParseDataSets(dataSets, layouts, cfg).Ok?
    ensures forall i :: 0 <= i < |dataSets| && Gated(dataSets[i], cfg) ==> Accepted(dataSets[i], layouts, cfg)
    decreases |dataSets|
  {
    if dataSets != [] {
      var n := |dataSets| - 1;
      var init := dataSets[..n];
      NoSilentMismatch(init, layouts, cfg);
      assert forall i :: 0 <= i < n ==> init[i] == dataSets[i];
    }
  }

  /** The guards of one step, in order: no attributes object is a TypeError
      (reading `type`); no non-empty `time-layout`, or a skipped key, adds
      nothing; then no children is a TypeError (the count's `reduce`), and so
      is a layout key that names no layout (reading `length`). */
  lemma AddDataSetGuards(memo: map<string, Record>, dataSet: Node, layouts: map<string, seq<Frame>>, cfg: Config)
    ensures dataSet.attributes.None? ==>
      AddDataSet(memo, dataSet, layouts, cfg) == Err(TypeError(AttributesOf(dataSet.name)))
    ensures dataSet.attributes.Some? && !Gated(dataSet, cfg) ==> AddDataSet(memo, dataSet, layouts, cfg) == Ok(memo)
    ensures Gated(dataSet, cfg) && dataSet.children.None? ==>
      AddDataSet(memo, dataSet, layouts, cfg) == Err(TypeError(ChildrenOf(dataSet.name)))
    ensures Gated(dataSet, cfg) && dataSet.children.Some? && dataSet.attributes.value["time-layout"] !in layouts ==>
      AddDataSet(memo, dataSet, layouts, cfg) == Err(TypeError(FramesOf(dataSet.attributes.value["time-layout"])))
  {
  }

  /** A gated dataSet whose count does not match its layout's frames: an
      error naming the layout key and both counts, or, with the skip option,
      nothing added and nothing thrown. */
  lemma MismatchOutcome(memo: map<string, Record>, dataSet: Node, layouts: map<string, seq<Frame>>, cfg: Config)
    requires Gated(dataSet, cfg) && dataSet.children.Some?
    requires dataSet.attributes.value["time-layout"] in layouts
    requires |layouts[dataSet.attributes.value["time-layout"]]| != NonNameCount(dataSet.children.value)
    ensures cfg.skipMismatched ==> AddDataSet(memo, dataSet, layouts, cfg) == Ok(memo)
    ensures !cfg.skipMismatched ==>
      var layoutKey := dataSet.attributes.value["time-layout"];
      AddDataSet(memo, dataSet, layouts, cfg) ==
        Err(CountMismatch(layoutKey, |layouts[layoutKey]|, NonNameCount(dataSet.children.value)))
  {
  }

  /** One step of the fold: a dataSet that is not accepted leaves the map as
      it was; an accepted one extends the record under its key with its
      filtered attributes and its entries. */
  lemma AddDataSetRecords(memo: map<string, Record>, dataSet: Node, layouts: map<string, seq<Frame>>, cfg: Config)
    requires AddDataSet(memo, dataSet, layouts, cfg).Ok?
    ensures !Accepted(dataSet, layouts, cfg) ==> AddDataSet(memo, dataSet, layouts, cfg).value == memo
    ensures Accepted(dataSet, layouts, cfg) ==>
      && EntriesOf(dataSet, layouts, cfg).Ok?
      && var key := KeyOf(dataSet);
         AddDataSet(memo, dataSet, layouts, cfg).value ==
           memo[key := (if key in memo then memo[key] else map[]) +
             AttributeFields(FilteredAttributes(dataSet.attributes.value, cfg.skipped)) +
             map["values" := Values(EntriesOf(dataSet, layouts, cfg).value)]]
  {
  }

  /** Every record holds `values` and no skipped attribute name other than
      `values` itself. */
  lemma {:induction false} RecordsOmitSkippedAttributes(
    dataSets: seq<Node>, layouts: map<string, seq<Frame>>, cfg: Config)
    requires ParseDataSets(dataSets, layouts, cfg).Ok?
    ensures forall k :: k in ParseDataSets(dataSets, layouts, cfg).value ==>
      var record := ParseDataSets(dataSets, layouts, cfg).value[k];
      && "values" in record
      && forall a :: a in record && a != "values" ==> a !in cfg.skipped
    decreases |dataSets|
  {
    if dataSets != [] {
      var n := |dataSets| - 1;
      var memo := ParseDataSets(dataSets[..n], layouts, cfg).value;
      assert ParseDataSets(dataSets, layouts, cfg) == AddDataSet(memo, dataSets[n], layouts, cfg);
      RecordsOmitSkippedAttributes(dataSets[..n], layouts, cfg);
      AddDataSetRecords(memo, dataSets[n], layouts, cfg);
    }
  }

  /** When several accepted dataSets share a key, `values` comes from the
      last of them. */
  lemma {:induction false} LastDataSetValuesWin(
    dataSets: seq<Node>, layouts: map<string, seq<Frame>>, cfg: Config, i: nat)
    requires ParseDataSets(dataSets, layouts, cfg).Ok?
    requires i < |dataSets| && Accepted(dataSets[i], layouts, cfg)
    requires forall j :: i < j < |dataSets| && Accepted(dataSets[j], layouts, cfg) ==>
      KeyOf(dataSets[j]) != KeyOf(dataSets[i])
    ensures EntriesOf(dataSets[i], layouts, cfg).Ok?
    ensures KeyOf(dataSets[i]) in ParseDataSets(dataSets, layouts, cfg).value
    ensures "values" in ParseDataSets(dataSets, layouts, cfg).value[KeyOf(dataSets[i])]
    ensures ParseDataSets(dataSets, layouts, cfg).value[KeyOf(dataSets[i])]["values"] ==
      Values(EntriesOf(dataSets[i], layouts, cfg).value)
    decreases |dataSets|
  {
    var n := |dataSets| - 1;
    var init := dataSets[..n];
    var memo := ParseDataSets(init, layouts, cfg).value;
    assert ParseDataSets(dataSets, layouts, cfg) == AddDataSet(memo, dataSets[n], layouts, cfg);
    AddDataSetRecords(memo, dataSets[n], layouts, cfg);
    if i < n {
      assert init[i] == dataSets[i];
      assert forall j :: i < j < n ==> init[j] == dataSets[j];
      LastDataSetValuesWin(init, layouts, cfg, i);
    }
  }

  /** Two `value` children zip with the first two frames. */
  lemma AlignTwoScalars(v0: Node, v1: Node, frames: seq<Frame>)
    requires v0.name == "value" && v1.name == "value" && |frames| >= 2
    ensures AlignValues([v0, v1], frames) ==
      Ok([Entry(frames[0], Scalar(v0.content)), Entry(frames[1], Scalar(v1.content))])
  {
    var vs := [v0, v1];
    AlignValuesZips(vs, frames);
    assert DecodeValue(vs[0]) == Ok(Scalar(v0.content));
    assert DecodeValue(vs[1]) == Ok(Scalar(v1.content));
    var r := AlignValues(vs, frames).value;
    assert |r| == 2;
    assert r == [r[0], r[1]];
  }

  /** A group with one accepted dataSet holds one record: its filtered
      attributes and its entries. */
  lemma LoneDataSet(dataSet: Node, layouts: map<string, seq<Frame>>, cfg: Config)
    requires Accepted(dataSet, layouts, cfg) && EntriesOf(dataSet, layouts, cfg).Ok?
    ensures ParseDataSets([dataSet], layouts, cfg) == Ok(map[KeyOf(dataSet) :=
      AttributeFields(FilteredAttributes(dataSet.attributes.value, cfg.skipped)) +
      map["values" := Values(EntriesOf(dataSet, layouts, cfg).value)]])
  {
    assert [dataSet][..0] == [];
    assert ParseDataSets([], layouts, cfg) == Ok(map[]);
    var attrs := dataSet.attributes.value;
    var fields := AttributeFields(FilteredAttributes(attrs, cfg.skipped));
    var entries := EntriesOf(dataSet, layouts, cfg).value;
    assert |layouts[attrs["time-layout"]]| == NonNameCount(dataSet.children.value);
    assert map[] + fields == fields;
    assert AddDataSet(map[], dataSet, layouts, cfg) ==
      Ok(map[KeyOf(dataSet) := fields + map["values" := Values(entries)]]);
  }

  /** `parse`: a one-entry map from the group's location key to its records.
      A group without children has no dataSets (`_.reduce` over `undefined`
      returns its seed). */
  function ParseParameters(layouts: map<string, seq<Frame>>, group: Node, options: Options)
    : (r: Result<map<string, map<string, Record>>>)
    ensures ApplicableLocation(group).Err? ==> r == Err(MissingApplicableLocation)
    ensures r.Ok? ==> |r.value| == 1
    ensures r.Ok? ==>
      forall k :: k in r.value ==>
        ApplicableLocation(group) == Ok(k) &&
        ParseDataSets(group.children.GetOr([]), layouts, Normalize(options)) == Ok(r.value[k])
    ensures ApplicableLocation(group).Ok? ==>
      var records := ParseDataSets(group.children.GetOr([]), layouts, Normalize(options));
      && (records.Err? ==> r == Err(records.error))
      && (records.Ok? ==> r == Ok(map[ApplicableLocation(group).value := records.value]))
  {
    var cfg := Normalize(options);
    var locationKey :- ApplicableLocation(group);
    var records :- ParseDataSets(group.children.GetOr([]), layouts, cfg);
    Ok(map[locationKey := records])
  }
}

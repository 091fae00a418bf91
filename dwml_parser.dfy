/** The entry point after XML parsing: checks the document root and hands the
    first `data` child to the data-subtree parser. */
module DwmlParser {
  import opened Tree
  import opened TimeLayout
  import opened Location
  import opened Parameter
  import opened DataSubtree

  /** The parsed XML document; `root` is absent when the parser found none. */
  datatype Document = Document(root: Option<Node>)

  const NoRootMessage: string := "Cannot find document root"
  const WrongRootMessage: string := "Root element is supposed to be named \"dwml\""
  const NoDataMessage: string := "Cannot find DWML data [ie, the children element of the dwml tree]"

  /** `true`, or the message of the first failed check. */
  datatype Validity = Valid | Invalid(message: string)

  /** `_isValidDWMLTree`: the root must exist, be named `dwml` and have a
      children array, checked in that order. */
  function IsValidDwmlTree(root: Option<Node>): (v: Validity)
    ensures v == Valid <==> root.Some? && root.value.name == "dwml" && root.value.children.Some?
    ensures root.None? ==> v == Invalid(NoRootMessage)
    ensures root.Some? && root.value.name != "dwml" ==> v == Invalid(WrongRootMessage)
    ensures root.Some? && root.value.name == "dwml" && root.value.children.None? ==>
      v == Invalid(NoDataMessage)
  {
    if root.None? then Invalid(NoRootMessage)
    else if root.value.name != "dwml" then Invalid(WrongRootMessage)
    else if root.value.children.None? then Invalid(NoDataMessage)
    else Valid
  }

  /** `_getDwmlObjectsFromTree`: an invalid root throws its message; a valid
      root without a `data` child fails on reading `children` of `undefined`;
      otherwise the result is the parse of the first `data` child. */
  function GetDwmlObjectsFromTree(document: Document, options: Options, clock: Clock)
    : (r: Result<map<string, Point>>)
    ensures IsValidDwmlTree(document.root).Invalid? ==>
      r == Err(InvalidDocument(IsValidDwmlTree(document.root).message))
    ensures (IsValidDwmlTree(document.root) == Valid &&
             FirstNamed(document.root.value.children.value, "data").None?) ==>
      r == Err(TypeError(DataSubtree))
    ensures r.Ok? ==> IsValidDwmlTree(document.root) == Valid
    ensures (IsValidDwmlTree(document.root) == Valid &&
             exists i :: 0 <= i < |document.root.value.children.value| &&
               document.root.value.children.value[i].name == "data") ==>
      exists i :: 0 <= i < |document.root.value.children.value| &&
        document.root.value.children.value[i].name == "data" &&
        (forall j :: 0 <= j < i ==> document.root.value.children.value[j].name != "data") &&
        r == ParseDataSubtree(document.root.value.children.value[i], options, clock)
  {
    match IsValidDwmlTree(document.root)
    case Invalid(message) => Err(InvalidDocument(message))
    case Valid =>
      match FirstNamed(document.root.value.children.value, "data")
      case None => Err(TypeError(DataSubtree))
      case Some(data) => ParseDataSubtree(data, options, clock)
  }

  /** The checks of the root, one failing document each. */
  lemma RootChecksInOrder(options: Options, clock: Clock)
    ensures GetDwmlObjectsFromTree(Document(None), options, clock) == Err(InvalidDocument(NoRootMessage))
    ensures GetDwmlObjectsFromTree(Document(Some(Node("xml", None, Some([]), None))), options, clock)
      == Err(InvalidDocument(WrongRootMessage))
    ensures GetDwmlObjectsFromTree(Document(Some(Node("dwml", None, None, None))), options, clock)
      == Err(InvalidDocument(NoDataMessage))
    ensures GetDwmlObjectsFromTree(Document(Some(Node("dwml", None, Some([]), None))), options, clock)
      == Err(TypeError(DataSubtree))
  {
  }

  /** A small forecast document: one two-start layout `k1`, one location
      `point1` and one untyped temperature for it. */
  const ExampleLayout: Node := Node("time-layout", Some(map[]), Some([
    Node("layout-key", Some(map[]), Some([]), Some("k1")),
    Node("start-valid-time", Some(map[]), Some([]), Some("T1")),
    Node("start-valid-time", Some(map[]), Some([]), Some("T2"))]), None)

  const ExampleLocation: Node := Node("location", Some(map[]), Some([
    Node("location-key", Some(map[]), Some([]), Some("point1")),
    Node("point", Some(map["latitude" := "38.99"]), Some([]), None)]), None)

  const ExampleTemperature: Node :=
    Node("temperature", Some(map["time-layout" := "k1"]), Some([
      Node("name", Some(map[]), Some([]), Some("Temperature")),
      Node("value", Some(map[]), Some([]), Some("50")),
      Node("value", Some(map[]), Some([]), Some("52"))]), None)

  const ExampleGroup: Node :=
    Node("parameters", Some(map["applicable-location" := "point1"]), Some([ExampleTemperature]), None)

  const ExampleDataSets: seq<Node> := [ExampleLocation, ExampleLayout, ExampleGroup]

  const ExampleDocument: Document := Document(Some(Node("dwml", Some(map[]), Some([
    Node("head", None, None, None),
    Node("data", Some(map[]), Some(ExampleDataSets), None)]), None)))

  /** The example's frames: the second start closes the first pair, and the
      trailing pair lasts as long as the first. */
  function ExampleFrames(clock: Clock): seq<Frame> {
    [Frame("T1", "T2"), Frame("T2", clock.plus("T2", clock.millis("T2") - clock.millis("T1")))]
  }

  function ExampleRecords(clock: Clock): map<string, Record> {
    var frames := ExampleFrames(clock);
    map["temperature" :=
      map["time-layout" := Attribute("k1")] +
      map["values" := Values([Entry(frames[0], Scalar(Some("50"))), Entry(frames[1], Scalar(Some("52")))])]]
  }

  lemma ExampleLayoutFrames(clock: Clock)
    ensures ParseTimeLayout(ExampleLayout, clock) == Ok(map["k1" := ExampleFrames(clock)])
  {
    var cs := ExampleLayout.children.value;
    assert cs[..1][..0] == [] && cs[..2][..1] == cs[..1] && cs[..3][..2] == cs[..2] && cs[..3] == cs;
    assert Scan(cs[..1], clock) == ScanState([], None, None);
    assert Scan(cs[..2], clock) == ScanState([], Some("T1"), None);
    assert Scan(cs, clock) ==
      ScanState([Frame("T1", "T2")], Some("T2"), Some(clock.millis("T2") - clock.millis("T1")));
    assert FirstNamed(cs, "layout-key") == Some(cs[0]);
    assert GetKey(cs) == Ok("k1");
    assert TimeFrames(cs, clock) == ExampleFrames(clock);
  }

  lemma ExampleTimeLayouts(clock: Clock)
    ensures GetTimeLayouts(ExampleDataSets, clock) == Ok(map["k1" := ExampleFrames(clock)])
  {
    var ds := ExampleDataSets;
    assert WhereNamed(ds, TimeLayoutTag) == [ExampleLayout] by {
      assert ds[1..] == [ExampleLayout, ExampleGroup];
      assert ds[1..][1..] == [ExampleGroup] && ds[1..][1..][1..] == [];
      assert WhereNamed([ExampleGroup], TimeLayoutTag) == [];
      assert WhereNamed(ds[1..], TimeLayoutTag) == [ExampleLayout];
    }
    ExampleLayoutFrames(clock);
    TraverseSingleton(ExampleLayout, LayoutParser(clock));
    UnwrapSingleton(map["k1" := ExampleFrames(clock)]);
  }

  lemma ExampleLocations()
    ensures GetLocations(ExampleDataSets) == Ok(map["point1" := map["latitude" := "38.99"]])
  {
    var ds := ExampleDataSets;
    assert WhereNamed(ds, LocationTag) == [ExampleLocation] by {
      assert ds[1..] == [ExampleLayout, ExampleGroup];
      assert ds[1..][1..] == [ExampleGroup] && ds[1..][1..][1..] == [];
      assert WhereNamed([ExampleGroup], LocationTag) == [];
      assert WhereNamed(ds[1..], LocationTag) == [];
    }
    assert ParseLocation(ExampleLocation) == Ok(map["point1" := map["latitude" := "38.99"]]) by {
      var cs := ExampleLocation.children.value;
      assert GetLocationKey(cs) == Ok("point1") by {
        assert FirstNamed(cs, "location-key") == Some(cs[0]);
      }
      assert GetLocationPoint(cs) == Ok(map["latitude" := "38.99"]) by {
        assert FirstNamed(cs, "point") == Some(cs[1]);
      }
    }
    TraverseSingleton(ExampleLocation, ParseLocation);
    UnwrapSingleton(map["point1" := map["latitude" := "38.99"]]);
  }

  lemma ExampleTemperatureKey()
    ensures KeyOf(ExampleTemperature) == "temperature"
  {
  }

  lemma ExampleTemperatureChildren()
    ensures var cs := ExampleTemperature.children.value;
      NonNameCount(cs) == 2 && ValueChildren(cs) == [cs[1], cs[2]]
  {
    var cs := ExampleTemperature.children.value;
    assert cs[..1][..0] == [] && cs[..2][..1] == cs[..1] && cs[..3][..2] == cs[..2] && cs[..3] == cs;
    assert NonNameCount(cs[..1]) == 0;
    assert NonNameCount(cs[..2]) == 1;
    assert ValueChildren(cs[..1]) == [];
    assert ValueChildren(cs[..2]) == [cs[1]];
  }

  lemma ExampleTemperatureRecords(clock: Clock)
    ensures ParseDataSets([ExampleTemperature], map["k1" := ExampleFrames(clock)], Config(false, [])) ==
      Ok(ExampleRecords(clock))
  {
    var layouts, cfg := map["k1" := ExampleFrames(clock)], Config(false, []);
    var t := ExampleTemperature;
    var attrs, cs := t.attributes.value, t.children.value;
    var frames := ExampleFrames(clock);
    assert KeyOf(t) == "temperature" by { ExampleTemperatureKey(); }
    assert Accepted(t, layouts, cfg) by {
      ExampleTemperatureKey();
      ExampleTemperatureChildren();
    }
    var entries := [Entry(frames[0], Scalar(Some("50"))), Entry(frames[1], Scalar(Some("52")))];
    assert EntriesOf(t, layouts, cfg) == Ok(entries) by {
      ExampleTemperatureChildren();
      AlignTwoScalars(cs[1], cs[2], frames);
    }
    assert AttributeFields(FilteredAttributes(attrs, [])) == map["time-layout" := Attribute("k1")] by {
      assert FilteredAttributes(attrs, []) == attrs;
    }
    LoneDataSet(t, layouts, cfg);
  }

  lemma ExampleParameters(clock: Clock)
    ensures GetParameters(ExampleDataSets, map["k1" := ExampleFrames(clock)], Options(None, None)) ==
      Ok(map["point1" := ExampleRecords(clock)])
  {
    var layouts, options := map["k1" := ExampleFrames(clock)], Options(None, None);
    var ds := ExampleDataSets;
    assert WhereNamed(ds, ParametersTag) == [ExampleGroup] by {
      assert ds[1..] == [ExampleLayout, ExampleGroup];
      assert ds[1..][1..] == [ExampleGroup] && ds[1..][1..][1..] == [];
      assert WhereNamed([ExampleGroup], ParametersTag) == [ExampleGroup];
      assert WhereNamed(ds[1..], ParametersTag) == [ExampleGroup];
    }
    assert ParseParameters(layouts, ExampleGroup, options) == Ok(map["point1" := ExampleRecords(clock)]) by {
      assert ApplicableLocation(ExampleGroup) == Ok("point1");
      assert Normalize(options) == Config(false, []);
      assert ExampleGroup.children.GetOr([]) == [ExampleTemperature];
      ExampleTemperatureRecords(clock);
    }
    TraverseSingleton(ExampleGroup, GroupParser(layouts, options));
    UnwrapSingleton(map["point1" := ExampleRecords(clock)]);
  }

  /** The whole pipeline on the small document: `point1` holds its point and
      a `temperature` record that keeps its attributes and zips its two
      values with the layout's two frames. */
  lemma ExampleDocumentParses(clock: Clock)
    ensures GetDwmlObjectsFromTree(ExampleDocument, Options(None, None), clock) ==
      Ok(map["point1" := Point(map["latitude" := "38.99"], Some(ExampleRecords(clock)))])
  {
    var children := ExampleDocument.root.value.children.value;
    assert FirstNamed(children, "data") == Some(children[1]);
    ExampleTimeLayouts(clock);
    ExampleParameters(clock);
    ExampleLocations();
    var data := children[1];
    var records := ExampleRecords(clock);
    MergeSingleton("point1", map["latitude" := "38.99"], records);
    assert ParseDataSubtree(data, Options(None, None), clock) ==
      Ok(MergeLocationsAndParameters(map["point1" := map["latitude" := "38.99"]], map["point1" := records]));
  }
}

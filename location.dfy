/** The location parser: a `location` node gives a one-entry map from the
    content of its `location-key` child to the attributes of its `point`
    child. */
module Location {
  import opened Tree

  /** `_getLocationKey`: the content of the first `location-key` child. */
  function GetLocationKey(locationChildren: seq<Node>): (r: Result<string>)
    ensures r.Err? ==> r.error == MissingLocationKey
    ensures r.Ok? ==> r.value != ""
    ensures r.Ok? ==>
      exists i :: 0 <= i < |locationChildren| && locationChildren[i].name == "location-key" &&
        locationChildren[i].content == Some(r.value) &&
        forall j :: 0 <= j < i ==> locationChildren[j].name != "location-key"
    ensures r.Ok? <==>
      exists i :: 0 <= i < |locationChildren| && locationChildren[i].name == "location-key" &&
        Truthy(locationChildren[i].content) &&
        forall j :: 0 <= j < i ==> locationChildren[j].name != "location-key"
  {
    RequiredContent(locationChildren, "location-key", MissingLocationKey)
  }

  /** `_getLocationPoint`: the attributes of the first `point` child, copied
      verbatim; a missing `point`, or one without attributes, is an error. */
  function GetLocationPoint(locationChildren: seq<Node>): (r: Result<map<string, string>>)
    ensures r.Err? ==> r.error == MissingPoint
    ensures r.Ok? ==>
      exists i :: 0 <= i < |locationChildren| && locationChildren[i].name == "point" &&
        locationChildren[i].attributes == Some(r.value) &&
        forall j :: 0 <= j < i ==> locationChildren[j].name != "point"
    ensures r.Err? <==>
      forall i ::
        (0 <= i < |locationChildren| && locationChildren[i].name == "point" &&
         forall j :: 0 <= j < i ==> locationChildren[j].name != "point") ==>
        locationChildren[i].attributes.None?
  {
    match FirstNamed(locationChildren, "point")
    case None => Err(MissingPoint)
    case Some(p) => if p.attributes.Some? then Ok(p.attributes.value) else Err(MissingPoint)
  }

  /** `parse`: `{key: point attributes}`, after the children, key and point
      checks, in that order. */
  function ParseLocation(location: Node): (r: Result<map<string, map<string, string>>>)
    ensures location.children.None? ==> r == Err(InvalidLocation)
    ensures r.Err? ==> r.error in {InvalidLocation, MissingLocationKey, MissingPoint}
    ensures r.Ok? ==> location.children.Some? && |r.value| == 1
    ensures location.children.Some? && GetLocationKey(location.children.value).Err? ==>
      r == Err(MissingLocationKey)
    ensures (location.children.Some? && GetLocationKey(location.children.value).Ok? &&
             GetLocationPoint(location.children.value).Err?) ==> r == Err(MissingPoint)
    ensures r.Ok? <==>
      location.children.Some? && GetLocationKey(location.children.value).Ok? &&
      GetLocationPoint(location.children.value).Ok?
    ensures r.Ok? ==>
      r.value == map[GetLocationKey(location.children.value).value := GetLocationPoint(location.children.value).value]
  {
    if location.children.None? then Err(InvalidLocation)
    else
      var cs := location.children.value;
      var key :- GetLocationKey(cs);
      var point :- GetLocationPoint(cs);
      Ok(map[key := point])
  }

  /** A location as in the forecast document of the tests: key `point1`, a
      point with latitude and longitude, and an extra child before them. */
  lemma ParseLocationExample()
    ensures ParseLocation(
      Node("location", Some(map[]), Some([
        Node("description", Some(map[]), Some([]), Some("Washington")),
        Node("location-key", Some(map[]), Some([]), Some("point1")),
        Node("point", Some(map["latitude" := "38.99", "longitude" := "-77.01"]), Some([]), None)]),
        None))
      == Ok(map["point1" := map["latitude" := "38.99", "longitude" := "-77.01"]])
  {
    var cs := [
      Node("description", Some(map[]), Some([]), Some("Washington")),
      Node("location-key", Some(map[]), Some([]), Some("point1")),
      Node("point", Some(map["latitude" := "38.99", "longitude" := "-77.01"]), Some([]), None)];
    assert GetLocationKey(cs) == Ok("point1") by {
      assert cs[1..][1..] == [cs[2]];
      assert FirstNamed(cs, "location-key") == Some(cs[1]);
    }
    assert GetLocationPoint(cs) == Ok(map["latitude" := "38.99", "longitude" := "-77.01"]) by {
      assert cs[1..][1..] == [cs[2]];
      assert FirstNamed(cs, "point") == Some(cs[2]);
    }
  }
}

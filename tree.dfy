/** The generic XML tree that the external XML parser hands to the converter,
    the errors that stand for the converter's synchronous throws, and the
    three collection helpers of the underscore library the parsers rely on
    (`findWhere`, `where` and a `map` whose callback may throw). */
module Tree {

  datatype Option<+T> = None | Some(value: T) {
    function GetOr(default: T): T {
      if Some? then value else default
    }
  }

  /** JavaScript truthiness of an optional string: present and not empty. */
  predicate Truthy(s: Option<string>) {
    s.Some? && s.value != ""
  }

  /** One XML element. The converter guards against a missing `attributes`
      object and a missing `children` array, so both are optional here;
      `content` is the element's text, when it has any. */
  datatype Node = Node(
    name: string,
    attributes: Option<map<string, string>>,
    children: Option<seq<Node>>,
    content: Option<string>)

  /** The property read on `undefined` that makes the JavaScript runtime
      throw a TypeError. */
  datatype UndefinedRead =
    | AttributesOf(tag: string)   // `x.attributes.y` where `x` has no attributes
    | ChildrenOf(tag: string)     // `x.children.reduce` where `x` has no children
    | FramesOf(layoutKey: string) // `timeLayouts[k].length` for a layout key never defined
    | DataSubtree                 // `undefined.children` when the document has no `data` child

  /** Every way a conversion fails. */
  datatype Error =
    | InvalidTimeLayout                 // a `time-layout` node without children
    | MissingLayoutKey                  // no `layout-key` child, or an empty one
    | InvalidLocation                   // a `location` node without children
    | MissingLocationKey                // no `location-key` child, or an empty one
    | MissingPoint                      // no `point` child, or one without attributes
    | MissingApplicableLocation         // a `parameters` node without `applicable-location`
    | CountMismatch(layoutKey: string, frameCount: nat, childCount: nat)
    | InvalidDocument(message: string)  // the root validation failed with this message
    | TypeError(read: UndefinedRead)

  datatype Result<+T> = Ok(value: T) | Err(error: Error) {
    predicate IsFailure() {
      Err?
    }

    function PropagateFailure<U>(): Result<U>
      requires Err?
    {
      Err(error)
    }

    function Extract(): T
      requires Ok?
    {
      value
    }
  }

  /** underscore's `findWhere(nodes, {name: name})`: the first node with that name. */
  function FirstNamed(nodes: seq<Node>, name: string): (r: Option<Node>)
    ensures r.None? <==> forall i :: 0 <= i < |nodes| ==> nodes[i].name != name
    ensures r.Some? ==>
      exists i :: 0 <= i < |nodes| && nodes[i] == r.value && r.value.name == name &&
        forall j :: 0 <= j < i ==> nodes[j].name != name
  {
    if nodes == [] then None
    else if nodes[0].name == name then Some(nodes[0])
    else
      var r := FirstNamed(nodes[1..], name);
      assert forall j :: 1 <= j < |nodes| ==> nodes[j] == nodes[1..][j - 1];
      r
  }

  /** The content of the first node called `name`, or `missing` when there is
      no such node or its content is missing or empty (the `!keyObj?.content`
      guard). */
  function RequiredContent(nodes: seq<Node>, name: string, missing: Error): (r: Result<string>)
    ensures r.Err? ==> r.error == missing
    ensures r.Ok? ==> r.value != ""
    ensures r.Ok? ==>
      exists i :: 0 <= i < |nodes| && nodes[i].name == name && nodes[i].content == Some(r.value) &&
        forall j :: 0 <= j < i ==> nodes[j].name != name
    ensures r.Ok? <==>
      exists i :: 0 <= i < |nodes| && nodes[i].name == name && Truthy(nodes[i].content) &&
        forall j :: 0 <= j < i ==> nodes[j].name != name
  {
    match FirstNamed(nodes, name)
    case None => Err(missing)
    case Some(n) => if Truthy(n.content) then Ok(n.content.value) else Err(missing)
  }

  /** underscore's `where(nodes, {name: name})`: the nodes with that name, in
      document order. */
  function WhereNamed(nodes: seq<Node>, name: string): (r: seq<Node>)
    ensures |r| <= |nodes|
    ensures forall n :: n in r ==> n in nodes && n.name == name
    ensures forall i :: 0 <= i < |nodes| && nodes[i].name == name ==> nodes[i] in r
  {
    if nodes == [] then []
    else
      var rest := WhereNamed(nodes[1..], name);
      assert forall i :: 1 <= i < |nodes| ==> nodes[i] == nodes[1..][i - 1];
      if nodes[0].name == name then [nodes[0]] + rest else rest
  }

  /** `where` keeps document order and multiplicity: filtering a
      concatenation is concatenating the filtered parts. */
  lemma {:induction false} WhereNamedAppend(a: seq<Node>, b: seq<Node>, name: string)
    ensures WhereNamed(a + b, name) == WhereNamed(a, name) + WhereNamed(b, name)
    decreases |a|
  {
    if a == [] {
      assert a + b == b;
    } else {
      var n, rest := a[0], a[1..];
      var head := if n.name == name then [n] else [];
      assert WhereNamed(a + b, name) == head + WhereNamed(rest + b, name) by {
        assert a + b == [n] + (rest + b);
        WhereNamedCons(n, rest + b, name);
      }
      assert WhereNamed(a, name) == head + WhereNamed(rest, name) by {
        assert a == [n] + rest;
        WhereNamedCons(n, rest, name);
      }
      WhereNamedAppend(rest, b, name);
    }
  }

  /** `where` on a node followed by more nodes. */
  lemma WhereNamedCons(n: Node, rest: seq<Node>, name: string)
    ensures WhereNamed([n] + rest, name) == (if n.name == name then [n] else []) + WhereNamed(rest, name)
  {
    assert ([n] + rest)[0] == n && ([n] + rest)[1..] == rest;
  }

  /** underscore's `map(xs, f)` with a callback that may throw: the results in
      order, or the error of the first element whose callback throws. */
  function Traverse<A, B>(xs: seq<A>, f: A -> Result<B>): (r: Result<seq<B>>)
    ensures r.Ok? <==> forall i :: 0 <= i < |xs| ==> f(xs[i]).Ok?
    ensures r.Ok? ==> |r.value| == |xs| && forall i :: 0 <= i < |xs| ==> f(xs[i]) == Ok(r.value[i])
    ensures r.Err? ==>
      exists i :: 0 <= i < |xs| && f(xs[i]) == Err(r.error) &&
        forall j :: 0 <= j < i ==> f(xs[j]).Ok?
  {
    if xs == [] then Ok([])
    else
      match f(xs[0])
      case Err(e) => Err(e)
      case Ok(y) =>
        var rest := Traverse(xs[1..], f);
        assert forall i :: 1 <= i < |xs| ==> xs[i] == xs[1..][i - 1];
        match rest
        case Err(e) => Err(e)
        case Ok(ys) => Ok([y] + ys)
  }

  /** Mapping over one element gives its result, or its error. */
  lemma TraverseSingleton<A, B>(x: A, f: A -> Result<B>)
    ensures f(x).Ok? ==> Traverse([x], f) == Ok([f(x).value])
    ensures f(x).Err? ==> Traverse([x], f) == Err(f(x).error)
  {
    assert [x][1..] == [];
    assert Traverse([], f) == Ok([]);
    if f(x).Ok? {
      assert [f(x).value] + [] == [f(x).value];
    }
  }
}

/** The time-layout parser: the key of a `time-layout` node and the ordered
    frames rebuilt from its `start-valid-time` / `end-valid-time` children by
    one left-to-right pairing scan. */
module TimeLayout {
  import opened Tree

  /** One interval of a layout; both ends are timestamp strings. */
  datatype Frame = Frame(start: string, end: string)

  /** Date and time arithmetic is foreign code (`Date`, Luxon), so it is a
      parameter: `millis` reads a timestamp as milliseconds since the epoch,
      and `plus` adds milliseconds to a timestamp, keeping its UTC offset. */
  datatype Clock = Clock(millis: string -> int, plus: (string, int) -> string)

  /** The interval assumed for a trailing open pair when no pair was closed:
      one hour. */
  const DefaultInterval: int := 1000 * 60 * 60

  /** The variables of the scan: the frames pushed so far, the open pair's
      start (if a pair is open) and the duration of the last closed pair. */
  datatype ScanState = ScanState(frames: seq<Frame>, open: Option<string>, lastInterval: Option<int>)

  /** Closes the open pair with `end` and pushes it. */
  function Close(st: ScanState, end: string, clock: Clock): ScanState
    requires st.open.Some?
  {
    ScanState(st.frames + [Frame(st.open.value, end)], None,
              Some(clock.millis(end) - clock.millis(st.open.value)))
  }

  /** One iteration of the scan on one child. A start closes the open pair
      with its own content as end, then opens a pair if its content is not
      empty; an end closes the open pair; anything else, and an end while no
      pair is open, changes nothing. */
  function Step(st: ScanState, child: Node, clock: Clock): (r: ScanState)
    ensures st.frames <= r.frames && |r.frames| <= |st.frames| + 1
    ensures child.name == "start-valid-time" ==>
      (r.open.Some? <==> Truthy(child.content)) &&
      (r.open.Some? ==> r.open.value == child.content.value)
    ensures child.name == "end-valid-time" ==> r.open.None?
    ensures child.name != "start-valid-time" && child.name != "end-valid-time" ==> r == st
  {
    var content := child.content.GetOr("");
    if child.name == "start-valid-time" then
      var closed := if st.open.Some? then Close(st, content, clock) else st;
      if content != "" then closed.(open := Some(content)) else closed
    else if child.name == "end-valid-time" && st.open.Some? then
      Close(st, content, clock)
    else
      st
  }

  /** The scan's state after the children `cs`, in order. */
  function Scan(cs: seq<Node>, clock: Clock): (r: ScanState)
    ensures |r.frames| + |OpenStart(r.open)| <= |cs|
    decreases |cs|
  {
    if cs == [] then ScanState([], None, None)
    else Step(Scan(cs[..|cs| - 1], clock), cs[|cs| - 1], clock)
  }

  /** Closes a trailing open pair at `start + lastInterval`, or one hour after
      `start` when no pair was ever closed. */
  function Finish(st: ScanState, clock: Clock): (r: seq<Frame>)
    ensures st.frames <= r && |r| == |st.frames| + |OpenStart(st.open)|
    ensures st.open.Some? ==> r[|r| - 1].start == st.open.value
  {
    if st.open.Some? then
      st.frames + [Frame(st.open.value, clock.plus(st.open.value, st.lastInterval.GetOr(DefaultInterval)))]
    else
      st.frames
  }

  /** The frames of a layout whose children are `cs`, by position: the k-th
      frame starts at the k-th opening start's content and ends at the content
      of the first `start-valid-time` or `end-valid-time` child after it; only
      the last frame may have no such child, and then it ends `lastInterval`
      (or one hour) after its start. */
  function TimeFrames(cs: seq<Node>, clock: Clock): (r: seq<Frame>)
    ensures |r| <= |cs|
    ensures |r| == |Openers(cs)|
    ensures forall k :: 0 <= k < |r| ==>
      && r[k].start == Text(cs[Openers(cs)[k]])
      && (NextMarker(cs, Openers(cs)[k] + 1).Some? ==>
            r[k].end == Text(cs[NextMarker(cs, Openers(cs)[k] + 1).value]))
      && (NextMarker(cs, Openers(cs)[k] + 1).None? ==>
            k == |r| - 1 &&
            r[k].end == clock.plus(r[k].start, Scan(cs, clock).lastInterval.GetOr(DefaultInterval)))
  {
    ScanByPositions(cs, clock);
    FinishByPositions(cs, Openers(cs), Scan(cs, clock), clock);
    Finish(Scan(cs, clock), clock)
  }

  /** The contents of the `start-valid-time` children with non-empty content,
      in document order: the starts that open a pair. */
  function StartTimes(cs: seq<Node>): seq<string>
    decreases |cs|
  {
    if cs == [] then []
    else
      var last := cs[|cs| - 1];
      StartTimes(cs[..|cs| - 1]) +
        (if last.name == "start-valid-time" && Truthy(last.content) then [last.content.value] else [])
  }

  function Starts(fs: seq<Frame>): (r: seq<string>)
    ensures |r| == |fs|
    ensures forall k :: 0 <= k < |fs| ==> r[k] == fs[k].start
  {
    seq(|fs|, k requires 0 <= k < |fs| => fs[k].start)
  }

  function OpenStart(open: Option<string>): seq<string> {
    if open.Some? then [open.value] else []
  }

  /** Every start that opened a pair is, in order, the start of a pushed
      frame or the start of the one open pair. */
  lemma {:induction false} ScanStarts(cs: seq<Node>, clock: Clock)
    ensures Starts(Scan(cs, clock).frames) + OpenStart(Scan(cs, clock).open) == StartTimes(cs)
    decreases |cs|
  {
    if cs != [] {
      var prefix := cs[..|cs| - 1];
      ScanStarts(prefix, clock);
    }
  }

  /** The frames of a layout are exactly one per opening start, in document
      order, each starting at its opening start's content. */
  lemma TimeFramesStarts(cs: seq<Node>, clock: Clock)
    ensures Starts(TimeFrames(cs, clock)) == StartTimes(cs)
    ensures |TimeFrames(cs, clock)| == |StartTimes(cs)|
  {
    ScanStarts(cs, clock);
    var st := Scan(cs, clock);
    if st.open.Some? {
      var end := clock.plus(st.open.value, st.lastInterval.GetOr(DefaultInterval));
      assert Starts(st.frames + [Frame(st.open.value, end)]) == Starts(st.frames) + [st.open.value];
    }
  }

  /** `lastInterval` is unset exactly while no pair has been closed, and
      otherwise is the duration of the most recently closed pair. */
  lemma {:induction false} LastIntervalIsLastFrame(cs: seq<Node>, clock: Clock)
    ensures Scan(cs, clock).lastInterval.None? <==> Scan(cs, clock).frames == []
    ensures Scan(cs, clock).frames != [] ==>
      var last := Scan(cs, clock).frames[|Scan(cs, clock).frames| - 1];
      Scan(cs, clock).lastInterval == Some(clock.millis(last.end) - clock.millis(last.start))
    decreases |cs|
  {
    if cs != [] {
      var n := |cs| - 1;
      LastIntervalIsLastFrame(cs[..n], clock);
      StepCloses(Scan(cs[..n], clock), cs[n], clock);
    }
  }

  /** A trailing open pair ends `lastInterval` after its start, where
      `lastInterval` is the duration of the last closed frame, or one hour
      when no frame was closed before it. */
  lemma TrailingPairEnd(cs: seq<Node>, clock: Clock)
    requires Scan(cs, clock).open.Some?
    ensures var fs := TimeFrames(cs, clock);
      var start := Scan(cs, clock).open.value;
      var closed := Scan(cs, clock).frames;
      && fs == closed + [fs[|fs| - 1]]
      && fs[|fs| - 1].start == start
      && (closed == [] ==> fs[|fs| - 1].end == clock.plus(start, DefaultInterval))
      && (closed != [] ==>
            fs[|fs| - 1].end ==
              clock.plus(start, clock.millis(closed[|closed| - 1].end) - clock.millis(closed[|closed| - 1].start)))
  {
    LastIntervalIsLastFrame(cs, clock);
  }

  /** What one step pushes: with a pair open, a start or an end closes it
      with its own content as the end, and the last interval becomes that
      frame's length; with no pair open, nothing is pushed and the last
      interval is kept. */
  lemma StepCloses(st: ScanState, child: Node, clock: Clock)
    ensures var r := Step(st, child, clock);
      && (st.open.Some? && IsMarker(child) ==>
            && r.frames == st.frames + [Frame(st.open.value, Text(child))]
            && r.lastInterval == Some(clock.millis(Text(child)) - clock.millis(st.open.value)))
      && (st.open.None? ==> r.frames == st.frames && r.lastInterval == st.lastInterval)
  {
  }

  /** An `end-valid-time` while no pair is open is ignored. */
  lemma StrayEndIgnored(st: ScanState, child: Node, clock: Clock)
    requires st.open.None? && child.name == "end-valid-time"
    ensures Step(st, child, clock) == st
  {
  }

  /** A `start-valid-time` with empty content still closes the open pair,
      with the empty string as its end, but opens no new pair. */
  lemma EmptyStartClosesOnly(st: ScanState, child: Node, clock: Clock)
    requires st.open.Some? && child.name == "start-valid-time" && !Truthy(child.content)
    ensures Step(st, child, clock).frames == st.frames + [Frame(st.open.value, "")]
    ensures Step(st, child, clock).open.None?
  {
  }

  /** A time marker: the children the scan reacts to. */
  predicate IsMarker(n: Node) {
    n.name == "start-valid-time" || n.name == "end-valid-time"
  }

  /** A start that opens a pair. */
  predicate Opens(n: Node) {
    n.name == "start-valid-time" && Truthy(n.content)
  }

  /** A child's content, the empty string when it has none. */
  function Text(n: Node): string {
    n.content.GetOr("")
  }

  /** The positions of the starts that open a pair, in document order. */
  function Openers(cs: seq<Node>): (r: seq<nat>)
    ensures forall k :: 0 <= k < |r| ==> r[k] < |cs| && Opens(cs[r[k]])
    decreases |cs|
  {
    if cs == [] then []
    else Openers(cs[..|cs| - 1]) + (if Opens(cs[|cs| - 1]) then [|cs| - 1] else [])
  }

  /** Which children are time markers. */
  function Markers(cs: seq<Node>): (ms: seq<bool>)
    ensures |ms| == |cs| && forall j :: 0 <= j < |cs| ==> ms[j] == IsMarker(cs[j])
  {
    seq(|cs|, j requires 0 <= j < |cs| => IsMarker(cs[j]))
  }

  /** The first position at or after `i` whose flag is set. */
  function NextSet(ms: seq<bool>, i: nat): (r: Option<nat>)
    ensures r.Some? ==> i <= r.value < |ms|
    decreases |ms| - i
  {
    if i >= |ms| then None
    else if ms[i] then Some(i)
    else NextSet(ms, i + 1)
  }

  /** The position of the first time marker at or after position `i`. */
  function NextMarker(cs: seq<Node>, i: nat): (r: Option<nat>)
    ensures r.Some? ==> i <= r.value < |cs|
  {
    NextSet(Markers(cs), i)
  }

  /** The next marker is the first one: none lies between `i` and it, and
      there is none at all after `i` when it is missing. */
  lemma NextMarkerIsFirst(cs: seq<Node>, i: nat)
    ensures NextMarker(cs, i).Some? ==>
      IsMarker(cs[NextMarker(cs, i).value]) &&
      forall j :: i <= j < NextMarker(cs, i).value ==> !IsMarker(cs[j])
    ensures NextMarker(cs, i).None? ==> forall j :: i <= j < |cs| ==> !IsMarker(cs[j])
  {
    NextSetIsFirst(Markers(cs), i);
  }

  lemma {:induction false} NextSetIsFirst(ms: seq<bool>, i: nat)
    ensures NextSet(ms, i).Some? ==>
      ms[NextSet(ms, i).value] && forall j :: i <= j < NextSet(ms, i).value ==> !ms[j]
    ensures NextSet(ms, i).None? ==> forall j :: i <= j < |ms| ==> !ms[j]
    decreases |ms| - i
  {
    if i < |ms| && !ms[i] {
      NextSetIsFirst(ms, i + 1);
    }
  }

  /** One more child changes the next marker only where none was found. */
  lemma NextMarkerExtend(cs: seq<Node>, x: Node, i: nat)
    requires i <= |cs|
    ensures NextMarker(cs + [x], i) ==
      if NextMarker(cs, i).Some? then NextMarker(cs, i)
      else if IsMarker(x) then Some(|cs|)
      else None
  {
    assert Markers(cs + [x]) == Markers(cs) + [IsMarker(x)];
    NextSetExtend(Markers(cs), IsMarker(x), i);
  }

  lemma {:induction false} NextSetExtend(ms: seq<bool>, b: bool, i: nat)
    requires i <= |ms|
    ensures NextSet(ms + [b], i) ==
      if NextSet(ms, i).Some? then NextSet(ms, i)
      else if b then Some(|ms|)
      else None
    decreases |ms| - i
  {
    var xs := ms + [b];
    if i == |ms| {
      assert xs[i] == b;
      assert NextSet(xs, i + 1) == None;
    } else {
      assert xs[i] == ms[i];
      if !ms[i] {
        NextSetExtend(ms, b, i + 1);
      }
    }
  }

  /** The scan described by positions: the k-th opening start is closed by
      the first time marker after it, with that marker's content as its end;
      the open pair, if any, belongs to the last opening start, and no marker
      follows it. */
  ghost predicate ScanAgrees(cs: seq<Node>, st: ScanState) {
    Agree(cs, Openers(cs), st.frames, st.open)
  }

  /** The same, against given positions `os` of the opening starts. */
  ghost predicate Agree(cs: seq<Node>, os: seq<nat>, frames: seq<Frame>, open: Option<string>) {
    && |os| == |frames| + |OpenStart(open)|
    && (forall k :: 0 <= k < |os| ==> os[k] < |cs|)
    && (forall k :: 0 <= k < |frames| ==>
          && NextMarker(cs, os[k] + 1).Some?
          && frames[k] == Frame(Text(cs[os[k]]), Text(cs[NextMarker(cs, os[k] + 1).value])))
    && (open.Some? ==>
          && open.value == Text(cs[os[|os| - 1]])
          && NextMarker(cs, os[|os| - 1] + 1).None?)
  }

  /** The scan agrees with the positional description after every prefix. */
  lemma {:induction false} ScanByPositions(cs: seq<Node>, clock: Clock)
    ensures ScanAgrees(cs, Scan(cs, clock))
    decreases |cs|
  {
    if cs != [] {
      var n := |cs| - 1;
      assert cs[..n] + [cs[n]] == cs;
      ScanByPositions(cs[..n], clock);
      StepShape(Scan(cs[..n], clock), cs[n], clock);
      AgreesStep(cs[..n], cs[n], Scan(cs[..n], clock), Scan(cs, clock));
    }
  }

  /** One step of the scan keeps the positional description: a marker
      closes the open pair, then an opening start opens the next one. */
  lemma AgreesStep(init: seq<Node>, x: Node, st: ScanState, r: ScanState)
    requires ScanAgrees(init, st)
    requires var closes := st.open.Some? && IsMarker(x);
      && r.frames == (if closes then st.frames + [Frame(st.open.value, Text(x))] else st.frames)
      && r.open == (if Opens(x) then Some(Text(x)) else if closes then None else st.open)
    ensures ScanAgrees(init + [x], r)
  {
    var cs := init + [x];
    var os := Openers(init);
    OpenersExtend(init, x);
    assert Opens(x) ==> IsMarker(x);
    var closes := st.open.Some? && IsMarker(x);
    var frames := if closes then st.frames + [Frame(st.open.value, Text(x))] else st.frames;
    var open := if closes then None else st.open;
    if closes {
      CloseAgree(init, x, os, st.frames, st.open.value);
    } else {
      LiftAgree(init, x, os, st.frames, st.open);
    }
    assert Agree(cs, os, frames, open);
    if Opens(x) {
      OpenAgree(cs, os, frames);
      assert cs[|cs| - 1] == x;
      assert Agree(cs, Openers(cs), r.frames, r.open);
    } else {
      assert Openers(cs) == os && r.frames == frames && r.open == open;
    }
  }

  lemma OpenersExtend(init: seq<Node>, x: Node)
    ensures Openers(init + [x]) == Openers(init) + (if Opens(x) then [|init|] else [])
  {
    assert (init + [x])[..|init|] == init;
  }

  /** One step as a close followed by an open. */
  lemma StepShape(st: ScanState, x: Node, clock: Clock)
    ensures var closes := st.open.Some? && IsMarker(x);
      && Step(st, x, clock).frames ==
           (if closes then st.frames + [Frame(st.open.value, Text(x))] else st.frames)
      && Step(st, x, clock).open ==
           (if Opens(x) then Some(Text(x)) else if closes then None else st.open)
  {
  }

  /** A child that closes nothing keeps the description. */
  lemma LiftAgree(init: seq<Node>, x: Node, os: seq<nat>, frames: seq<Frame>, open: Option<string>)
    requires Agree(init, os, frames, open)
    requires open.None? || !IsMarker(x)
    ensures Agree(init + [x], os, frames, open)
  {
    var cs := init + [x];
    forall k | 0 <= k < |frames|
      ensures NextMarker(cs, os[k] + 1).Some?
      ensures frames[k] == Frame(Text(cs[os[k]]), Text(cs[NextMarker(cs, os[k] + 1).value]))
    {
      NextMarkerExtend(init, x, os[k] + 1);
      assert cs[os[k]] == init[os[k]];
      assert cs[NextMarker(init, os[k] + 1).value] == init[NextMarker(init, os[k] + 1).value];
    }
    if open.Some? {
      var last := os[|os| - 1];
      NextMarkerExtend(init, x, last + 1);
      assert cs[last] == init[last];
    }
  }

  /** A marker while a pair is open closes it with its own content. */
  lemma CloseAgree(init: seq<Node>, x: Node, os: seq<nat>, frames: seq<Frame>, start: string)
    requires Agree(init, os, frames, Some(start))
    requires IsMarker(x)
    ensures Agree(init + [x], os, frames + [Frame(start, Text(x))], None)
  {
    var cs := init + [x];
    var fs := frames + [Frame(start, Text(x))];
    var last := os[|os| - 1];
    forall k | 0 <= k < |fs|
      ensures NextMarker(cs, os[k] + 1).Some?
      ensures fs[k] == Frame(Text(cs[os[k]]), Text(cs[NextMarker(cs, os[k] + 1).value]))
    {
      NextMarkerExtend(init, x, os[k] + 1);
      assert cs[os[k]] == init[os[k]];
      if k < |frames| {
        assert fs[k] == frames[k];
        assert cs[NextMarker(init, os[k] + 1).value] == init[NextMarker(init, os[k] + 1).value];
      } else {
        assert k == |frames| && os[k] == last;
        assert NextMarker(cs, os[k] + 1) == Some(|init|);
        assert cs[|init|] == x;
      }
    }
  }

  /** An opening start as the last child opens a pair at its position. */
  lemma OpenAgree(cs: seq<Node>, os: seq<nat>, frames: seq<Frame>)
    requires cs != [] && Opens(cs[|cs| - 1])
    requires Agree(cs, os, frames, None)
    ensures Agree(cs, os + [|cs| - 1], frames, Some(Text(cs[|cs| - 1])))
  {
    var os' := os + [|cs| - 1];
    assert forall k :: 0 <= k < |os| ==> os'[k] == os[k];
    assert NextMarker(cs, |cs|).None?;
  }

  /** Closing the trailing pair keeps the positional description of the
      closed frames and adds the trailing one. */
  lemma FinishByPositions(cs: seq<Node>, os: seq<nat>, st: ScanState, clock: Clock)
    requires Agree(cs, os, st.frames, st.open)
    ensures var fs := Finish(st, clock);
      && |fs| == |os|
      && forall k :: 0 <= k < |fs| ==>
           && fs[k].start == Text(cs[os[k]])
           && (NextMarker(cs, os[k] + 1).Some? ==> fs[k].end == Text(cs[NextMarker(cs, os[k] + 1).value]))
           && (NextMarker(cs, os[k] + 1).None? ==>
                 k == |fs| - 1 &&
                 fs[k].end == clock.plus(fs[k].start, st.lastInterval.GetOr(DefaultInterval)))
  {
    var fs := Finish(st, clock);
    forall k | 0 <= k < |fs|
      ensures fs[k].start == Text(cs[os[k]])
      ensures NextMarker(cs, os[k] + 1).Some? ==> fs[k].end == Text(cs[NextMarker(cs, os[k] + 1).value])
      ensures NextMarker(cs, os[k] + 1).None? ==>
        k == |fs| - 1 && fs[k].end == clock.plus(fs[k].start, st.lastInterval.GetOr(DefaultInterval))
    {
      if k < |st.frames| {
        assert fs[k] == st.frames[k];
      } else {
        assert st.open.Some? && k == |fs| - 1 && os[k] == os[|os| - 1];
        assert fs[k] == Frame(st.open.value, clock.plus(st.open.value, st.lastInterval.GetOr(DefaultInterval)));
      }
    }
  }

  /** The single-tag form: every time marker is a `start-valid-time` with
      content. */
  predicate OnlyStarts(cs: seq<Node>) {
    forall i :: 0 <= i < |cs| ==>
      (cs[i].name == "start-valid-time" || cs[i].name == "end-valid-time") ==>
        cs[i].name == "start-valid-time" && Truthy(cs[i].content)
  }

  predicate Contiguous(fs: seq<Frame>) {
    forall k :: 0 <= k < |fs| - 1 ==> fs[k].end == fs[k + 1].start
  }

  lemma {:induction false} ScanContiguous(cs: seq<Node>, clock: Clock)
    requires OnlyStarts(cs)
    ensures Contiguous(Scan(cs, clock).frames)
    ensures Scan(cs, clock).frames != [] ==> Scan(cs, clock).open.Some?
    ensures Scan(cs, clock).frames != [] && Scan(cs, clock).open.Some? ==>
      Scan(cs, clock).frames[|Scan(cs, clock).frames| - 1].end == Scan(cs, clock).open.value
    decreases |cs|
  {
    if cs != [] {
      var prefix := cs[..|cs| - 1];
      assert OnlyStarts(prefix) by {
        forall i | 0 <= i < |prefix| ensures prefix[i] == cs[i] { }
      }
      ScanContiguous(prefix, clock);
    }
  }

  /** Back-to-back starts give contiguous frames. */
  lemma BackToBackStartsContiguous(cs: seq<Node>, clock: Clock)
    requires OnlyStarts(cs)
    ensures Contiguous(TimeFrames(cs, clock))
  {
    ScanContiguous(cs, clock);
  }

  /** The children of a layout written as explicit start/end pairs. */
  function PairNodes(pairs: seq<Frame>): (cs: seq<Node>)
    ensures |cs| == 2 * |pairs|
    decreases |pairs|
  {
    if pairs == [] then []
    else
      var last := pairs[|pairs| - 1];
      PairNodes(pairs[..|pairs| - 1]) + [StartNode(last.start), EndNode(last.end)]
  }

  function StartNode(content: string): Node {
    Node("start-valid-time", Some(map[]), Some([]), Some(content))
  }

  function EndNode(content: string): Node {
    Node("end-valid-time", Some(map[]), Some([]), Some(content))
  }

  lemma {:induction false} ScanPairs(pairs: seq<Frame>, clock: Clock)
    requires forall k :: 0 <= k < |pairs| ==> pairs[k].start != ""
    ensures Scan(PairNodes(pairs), clock).frames == pairs
    ensures Scan(PairNodes(pairs), clock).open.None?
    decreases |pairs|
  {
    if pairs != [] {
      var init := pairs[..|pairs| - 1];
      ScanPairs(init, clock);
      var last := pairs[|pairs| - 1];
      assert PairNodes(pairs) == PairNodes(init) + [StartNode(last.start), EndNode(last.end)];
      ScanTwoMore(PairNodes(init), StartNode(last.start), EndNode(last.end), clock);
      PairStep(Scan(PairNodes(init), clock), last, clock);
      assert init + [last] == pairs;
    }
  }

  /** The scan after two more children is two more steps. */
  lemma ScanTwoMore(cs: seq<Node>, a: Node, b: Node, clock: Clock)
    ensures Scan(cs + [a, b], clock) == Step(Step(Scan(cs, clock), a, clock), b, clock)
  {
    var xs := cs + [a, b];
    assert xs[..|xs| - 1] == cs + [a];
    assert (cs + [a])[..|cs|] == cs;
  }

  /** A start and its end, with no pair open before them, push that pair. */
  lemma PairStep(st: ScanState, pair: Frame, clock: Clock)
    requires st.open.None? && pair.start != ""
    ensures var afterStart := Step(st, StartNode(pair.start), clock);
      var afterEnd := Step(afterStart, EndNode(pair.end), clock);
      afterEnd.frames == st.frames + [pair] && afterEnd.open.None?
  {
    var afterStart := Step(st, StartNode(pair.start), clock);
    assert afterStart.frames == st.frames && afterStart.open == Some(pair.start);
    StepCloses(afterStart, EndNode(pair.end), clock);
  }

  /** A layout of complete start/end pairs gives exactly those pairs, in
      document order. */
  lemma CompletePairs(pairs: seq<Frame>, clock: Clock)
    requires forall k :: 0 <= k < |pairs| ==> pairs[k].start != ""
    ensures TimeFrames(PairNodes(pairs), clock) == pairs
  {
    ScanPairs(pairs, clock);
  }

  /** `_getTimeFrames`: the scan, as a loop over the children with one open
      pair and the last interval, then the trailing pair. */
  method GetTimeFrames(layoutChildren: seq<Node>, clock: Clock) returns (timeframes: seq<Frame>)
    ensures timeframes == TimeFrames(layoutChildren, clock)
    ensures |timeframes| == |StartTimes(layoutChildren)|
    ensures forall k :: 0 <= k < |timeframes| ==> timeframes[k].start == StartTimes(layoutChildren)[k]
  {
    var i := 0;
    timeframes := [];
    var currentPair: Option<string> := None;
    var lastInterval: Option<int> := None;
    while i < |layoutChildren|
      invariant 0 <= i <= |layoutChildren|
      invariant Scan(layoutChildren[..i], clock) == ScanState(timeframes, currentPair, lastInterval)
    {
      var child := layoutChildren[i];
      var content := child.content.GetOr("");
      if child.name == "start-valid-time" {
        if currentPair.Some? {
          lastInterval := Some(clock.millis(content) - clock.millis(currentPair.value));
          timeframes := timeframes + [Frame(currentPair.value, content)];
          currentPair := None;
        }
        if content != "" {
          currentPair := Some(content);
        }
      }
      if child.name == "end-valid-time" && currentPair.Some? {
        lastInterval := Some(clock.millis(content) - clock.millis(currentPair.value));
        timeframes := timeframes + [Frame(currentPair.value, content)];
        currentPair := None;
      }
      assert layoutChildren[..i + 1][..i] == layoutChildren[..i];
      i := i + 1;
    }
    assert layoutChildren[..i] == layoutChildren;
    if currentPair.Some? {
      var end := clock.plus(currentPair.value, lastInterval.GetOr(DefaultInterval));
      timeframes := timeframes + [Frame(currentPair.value, end)];
    }
    TimeFramesStarts(layoutChildren, clock);
  }

  /** `_getKey`: the content of the first `layout-key` child. */
  function GetKey(layoutChildren: seq<Node>): (r: Result<string>)
    ensures r.Err? ==> r.error == MissingLayoutKey
    ensures r.Ok? ==> r.value != ""
    ensures r.Ok? ==>
      exists i :: 0 <= i < |layoutChildren| && layoutChildren[i].name == "layout-key" &&
        layoutChildren[i].content == Some(r.value) &&
        forall j :: 0 <= j < i ==> layoutChildren[j].name != "layout-key"
    ensures r.Ok? <==>
      exists i :: 0 <= i < |layoutChildren| && layoutChildren[i].name == "layout-key" &&
        Truthy(layoutChildren[i].content) &&
        forall j :: 0 <= j < i ==> layoutChildren[j].name != "layout-key"
  {
    RequiredContent(layoutChildren, "layout-key", MissingLayoutKey)
  }

  /** `parse`: a one-entry map from the layout's key to its frames. */
  function ParseTimeLayout(layout: Node, clock: Clock): (r: Result<map<string, seq<Frame>>>)
    ensures layout.children.None? ==> r == Err(InvalidTimeLayout)
    ensures r.Err? ==> r.error in {InvalidTimeLayout, MissingLayoutKey}
    ensures r.Ok? ==> layout.children.Some? && |r.value| == 1
    ensures layout.children.Some? && GetKey(layout.children.value).Err? ==> r == Err(MissingLayoutKey)
    ensures layout.children.Some? && GetKey(layout.children.value).Ok? ==>
      r == Ok(map[GetKey(layout.children.value).value := TimeFrames(layout.children.value, clock)])
    ensures r.Ok? ==>
      forall k :: k in r.value ==>
        GetKey(layout.children.value) == Ok(k) &&
        Starts(r.value[k]) == StartTimes(layout.children.value)
  {
    if layout.children.None? then Err(InvalidTimeLayout)
    else
      var cs := layout.children.value;
      var key :- GetKey(cs);
      TimeFramesStarts(cs, clock);
      Ok(map[key := TimeFrames(cs, clock)])
  }
}

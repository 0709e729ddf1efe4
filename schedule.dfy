/** `parse_times`: the scanner that turns the children of the time/location
    cell into meetings. Each text child is collapsed; a non-blank one is
    counted and classified as a block, a times or a location line; a
    `strong` child sets the meeting's info; an `hr` child closes the
    current meeting. The four fields are never reset, so a meeting that
    lacks a line keeps the value of the meeting before it. */
module Schedule {
  import opened Wrappers
  import opened Strings
  import opened Markup
  import opened Records

  /** The scanner's locals: the four fields, the counter `i` and the
      meetings emitted so far. */
  datatype Scan = Scan(
    block: Option<string>,
    times: Option<string>,
    location: Option<string>,
    info: Option<string>,
    counter: int,
    schedule: seq<CourseTime>)

  const Start := Scan(None, None, None, None, -1, [])

  /** The meeting the current fields describe. */
  function Pending(s: Scan): CourseTime {
    CourseTime(s.block, s.times, s.location, s.info)
  }

  predicate IsBlockLine(el: string) {
    "Block" <= el
  }

  /** A text child that is not blank once collapsed: the only kind of
      child that moves the counter. */
  predicate IsToken(n: Node) {
    n.Text? && !AllSpace(n.s)
  }

  predicate IsHr(n: Node) {
    IsTag(n, Some("hr"))
  }

  predicate IsStrong(n: Node) {
    IsTag(n, Some("strong"))
  }

  /** One iteration of the loop over the children. */
  function Step(s: Scan, n: Node): Scan {
    match n
    case Text(raw) => StepLine(s, Collapse(raw))
    case Tag(name, _, _) =>
      if name == "hr" then s.(schedule := s.schedule + [Pending(s)], counter := -1)
      else if name == "strong" then s.(info := Some(Strip(TextOf(n))))
      else s
  }

  /** A text child, once collapsed to `el`: skipped when empty, else
      counted and classified. */
  function StepLine(s: Scan, el: string): Scan {
    if el == [] then s
    else
      var i := s.counter + 1;
      if IsBlockLine(el) then s.(block := Some(Drop(el, 6)), counter := i)
      else if i == 0 || (s.block.Some? && i == 1) then s.(times := Some(el), counter := i)
      else s.(location := Some(el), counter := i)
  }

  /** The scanner's state after the children `cs`. */
  function ScanAll(cs: seq<Node>): Scan
    decreases |cs|
  {
    if cs == [] then Start else Step(ScanAll(cs[..|cs| - 1]), cs[|cs| - 1])
  }

  /** What `parse_times` returns for a cell with children `cs`: the
      meetings closed by an `hr`, then the last one. */
  function ParseTimesOf(cs: seq<Node>): seq<CourseTime> {
    var s := ScanAll(cs);
    s.schedule + [Pending(s)]
  }

  /** `parse_times(time_location)`. */
  method ParseTimes(timeLocation: Element) returns (schedule: seq<CourseTime>)
    ensures schedule == ParseTimesOf(timeLocation.children)
    ensures |schedule| == |FilterTags(timeLocation.children, "hr")| + 1
  {
    var cs := timeLocation.children;
    var block: Option<string> := None;
    var times: Option<string> := None;
    var location: Option<string> := None;
    var info: Option<string> := None;
    schedule := [];
    var i := -1;
    for k := 0 to |cs|
      invariant Scan(block, times, location, info, i, schedule) == ScanAll(cs[..k])
    {
      assert cs[..k + 1][..k] == cs[..k];
      var el := cs[k];
      if el.Tag? {
        if el.name == "hr" {
          schedule := schedule + [CourseTime(block, times, location, info)];
          i := -1;
        } else if el.name == "strong" {
          info := Some(Strip(TextOf(el)));
        }
      } else {
        var line := Collapse(el.s);
        if line == [] {
          continue;
        }
        i := i + 1;
        if IsBlockLine(line) {
          block := Some(Drop(line, 6));
        } else if i == 0 || (block.Some? && i == 1) {
          times := Some(line);
        } else {
          location := Some(line);
        }
      }
    }
    assert cs[..|cs|] == cs;
    schedule := schedule + [CourseTime(block, times, location, info)];
    MeetingCount(cs);
  }

  // ---------------------------------------------------------------------
  // Reference definitions, read off the children directly

  /** The children after the last `hr`: the current meeting's part. */
  function Segment(cs: seq<Node>): seq<Node>
    decreases |cs|
  {
    if cs == [] then []
    else if IsHr(cs[|cs| - 1]) then []
    else Segment(cs[..|cs| - 1]) + [cs[|cs| - 1]]
  }

  /** How many children are tokens. */
  function CountTokens(cs: seq<Node>): nat
    decreases |cs|
  {
    if cs == [] then 0
    else CountTokens(cs[..|cs| - 1]) + (if IsToken(cs[|cs| - 1]) then 1 else 0)
  }

  /** The block named by the last "Block" line, if any. */
  function LastBlock(cs: seq<Node>): Option<string>
    decreases |cs|
  {
    if cs == [] then None
    else
      var n := cs[|cs| - 1];
      if n.Text? && IsBlockLine(Collapse(n.s)) then Some(Drop(Collapse(n.s), 6))
      else LastBlock(cs[..|cs| - 1])
  }

  /** The stripped text of the last `strong` child, if any. */
  function LastInfo(cs: seq<Node>): Option<string>
    decreases |cs|
  {
    if cs == [] then None
    else
      var n := cs[|cs| - 1];
      if IsStrong(n) then Some(Strip(TextOf(n))) else LastInfo(cs[..|cs| - 1])
  }

  /** The children that can affect the result: tokens, `hr` and `strong`
      tags. */
  function Relevant(cs: seq<Node>): seq<Node>
    decreases |cs|
  {
    if cs == [] then []
    else
      var n := cs[|cs| - 1];
      Relevant(cs[..|cs| - 1]) + (if IsToken(n) || IsHr(n) || IsStrong(n) then [n] else [])
  }

  // ---------------------------------------------------------------------
  // Properties

  lemma LastOfAppend(p: seq<Node>, n: Node)
    ensures (p + [n])[..|p + [n]| - 1] == p && (p + [n])[|p + [n]| - 1] == n
  {
  }

  /** Only an `hr` emits a meeting, and it keeps what was emitted before. */
  lemma StepSchedule(s: Scan, n: Node)
    ensures Step(s, n).schedule == if IsHr(n) then s.schedule + [Pending(s)] else s.schedule
  {
  }

  /** Only a token moves the counter, and an `hr` puts it back to -1. */
  lemma StepCounter(s: Scan, n: Node)
    ensures Step(s, n).counter ==
      if IsHr(n) then -1 else if IsToken(n) then s.counter + 1 else s.counter
  {
    if n.Text? {
      var r := StepLine(s, Collapse(n.s));
      assert Step(s, n) == r;
    }
  }

  /** No step clears a field. */
  lemma StepKeepsFields(s: Scan, n: Node)
    ensures s.block.Some? ==> Step(s, n).block.Some?
    ensures s.times.Some? ==> Step(s, n).times.Some?
    ensures s.location.Some? ==> Step(s, n).location.Some?
    ensures s.info.Some? ==> Step(s, n).info.Some?
  {
    if n.Text? {
      var r := StepLine(s, Collapse(n.s));
      assert Step(s, n) == r;
    }
  }

  /** One meeting per `hr` child, plus the final one: never empty. */
  lemma {:induction false} MeetingCount(cs: seq<Node>)
    ensures |ScanAll(cs).schedule| == |FilterTags(cs, "hr")|
    ensures |ParseTimesOf(cs)| == |FilterTags(cs, "hr")| + 1
    decreases |cs|
  {
    if cs != [] {
      var p := cs[..|cs| - 1];
      var n := cs[|cs| - 1];
      assert cs == p + [n];
      MeetingCount(p);
      StepSchedule(ScanAll(p), n);
      FilterTagsAppend(p, [n], "hr");
      assert FilterTags([n], "hr") == if IsHr(n) then [n] else [];
    }
  }

  /** The counter is one less than the number of tokens since the last
      `hr`: it starts at -1 and an `hr` puts it back there. */
  lemma {:induction false} CounterCountsSegmentTokens(cs: seq<Node>)
    ensures ScanAll(cs).counter == CountTokens(Segment(cs)) - 1
    decreases |cs|
  {
    if cs != [] {
      var p := cs[..|cs| - 1];
      var n := cs[|cs| - 1];
      CounterCountsSegmentTokens(p);
      StepCounter(ScanAll(p), n);
      if !IsHr(n) {
        LastOfAppend(Segment(p), n);
        assert Segment(cs) == Segment(p) + [n];
      }
    }
  }

  /** `block` holds the block of the last "Block" line anywhere before,
      even one in an earlier meeting. */
  lemma {:induction false} BlockIsLastBlockLine(cs: seq<Node>)
    ensures ScanAll(cs).block == LastBlock(cs)
    decreases |cs|
  {
    if cs != [] {
      BlockIsLastBlockLine(cs[..|cs| - 1]);
    }
  }

  /** `info` holds the stripped text of the last `strong` anywhere before. */
  lemma {:induction false} InfoIsLastStrong(cs: seq<Node>)
    ensures ScanAll(cs).info == LastInfo(cs)
    decreases |cs|
  {
    if cs != [] {
      InfoIsLastStrong(cs[..|cs| - 1]);
    }
  }

  /** How a token is classified, in terms of the children before it: a
      "Block" line sets `block` to what follows "Block" and a separator;
      otherwise the first token of a meeting, or the second when some
      block was seen before, sets `times`; any other sets `location`. */
  lemma TokenClassified(p: seq<Node>, t: string)
    requires !AllSpace(t)
    ensures var el := Collapse(t);
      var k := CountTokens(Segment(p));
      var s := ScanAll(p);
      var r := ScanAll(p + [Text(t)]);
      && r.counter == k
      && r.schedule == s.schedule && r.info == s.info
      && (IsBlockLine(el) ==>
            r.block == Some(Drop(el, 6)) && r.times == s.times && r.location == s.location)
      && (!IsBlockLine(el) && (k == 0 || (LastBlock(p).Some? && k == 1)) ==>
            r.times == Some(el) && r.block == s.block && r.location == s.location)
      && (!IsBlockLine(el) && !(k == 0 || (LastBlock(p).Some? && k == 1)) ==>
            r.location == Some(el) && r.block == s.block && r.times == s.times)
  {
    LastOfAppend(p, Text(t));
    CounterCountsSegmentTokens(p);
    BlockIsLastBlockLine(p);
  }

  /** Meetings already closed are never changed by later children. */
  lemma {:induction false} ClosedMeetingsStay(p: seq<Node>, q: seq<Node>)
    ensures ScanAll(p).schedule <= ScanAll(p + q).schedule
    decreases |q|
  {
    if q == [] {
      assert p + q == p;
    } else {
      var q' := q[..|q| - 1];
      assert (p + q)[..|p + q| - 1] == p + q';
      ClosedMeetingsStay(p, q');
      StepSchedule(ScanAll(p + q'), q[|q| - 1]);
    }
  }

  /** A field, once set, is never cleared. */
  lemma {:induction false} FieldsNeverCleared(p: seq<Node>, q: seq<Node>)
    ensures ScanAll(p).block.Some? ==> ScanAll(p + q).block.Some?
    ensures ScanAll(p).times.Some? ==> ScanAll(p + q).times.Some?
    ensures ScanAll(p).location.Some? ==> ScanAll(p + q).location.Some?
    ensures ScanAll(p).info.Some? ==> ScanAll(p + q).info.Some?
    decreases |q|
  {
    if q == [] {
      assert p + q == p;
    } else {
      var q' := q[..|q| - 1];
      assert (p + q)[..|p + q| - 1] == p + q';
      FieldsNeverCleared(p, q');
      StepKeepsFields(ScanAll(p + q'), q[|q| - 1]);
    }
  }

  /** Meetings come in document order: the meeting an `hr` closes is the
      state of the fields just before that `hr`, and it sits at the
      position given by the number of `hr`s before it. */
  lemma MeetingAtHr(p: seq<Node>, h: Node, q: seq<Node>)
    requires IsHr(h)
    ensures |FilterTags(p, "hr")| < |ParseTimesOf(p + [h] + q)|
    ensures ParseTimesOf(p + [h] + q)[|FilterTags(p, "hr")|] == Pending(ScanAll(p))
  {
    LastOfAppend(p, h);
    MeetingCount(p);
    ClosedMeetingsStay(p + [h], q);
  }

  /** A meeting that has no line of some kind keeps the previous meeting's
      value for it: children without tokens and without `strong` leave all
      four fields as they were. */
  lemma {:induction false} FieldsInherited(p: seq<Node>, q: seq<Node>)
    requires forall k :: 0 <= k < |q| ==> !IsToken(q[k]) && !IsStrong(q[k])
    ensures Pending(ScanAll(p + q)) == Pending(ScanAll(p))
    decreases |q|
  {
    if q == [] {
      assert p + q == p;
    } else {
      var q' := q[..|q| - 1];
      assert (p + q)[..|p + q| - 1] == p + q';
      FieldsInherited(p, q');
    }
  }

  /** Blank text and tags other than `hr` and `strong` do not matter. */
  lemma {:induction false} OnlyRelevantChildrenMatter(cs: seq<Node>)
    ensures ScanAll(Relevant(cs)) == ScanAll(cs)
    ensures ParseTimesOf(Relevant(cs)) == ParseTimesOf(cs)
    decreases |cs|
  {
    if cs != [] {
      var p := cs[..|cs| - 1];
      var n := cs[|cs| - 1];
      OnlyRelevantChildrenMatter(p);
      if IsToken(n) || IsHr(n) || IsStrong(n) {
        LastOfAppend(Relevant(p), n);
      } else {
        assert Relevant(cs) == Relevant(p);
      }
    }
  }

  /** The shape of the example row's cell: a block line, a times line and a
      location line, an `hr`, a `strong` label, then a second block line
      and times line. The second meeting carries the label and inherits
      the first meeting's location; the first has no label. */
  lemma TwoMeetingExample(x1: string, x2: string, x3: string, hr: Node, caption: Node, x5: string, x6: string)
    requires IsHr(hr) && IsStrong(caption)
    requires IsBlockLine(Collapse(x1)) && IsBlockLine(Collapse(x5))
    requires Collapse(x2) != [] && !IsBlockLine(Collapse(x2))
    requires Collapse(x3) != [] && !IsBlockLine(Collapse(x3))
    requires Collapse(x6) != [] && !IsBlockLine(Collapse(x6))
    ensures ParseTimesOf([Text(x1), Text(x2), Text(x3), hr, caption, Text(x5), Text(x6)]) == [
      CourseTime(Some(Drop(Collapse(x1), 6)), Some(Collapse(x2)), Some(Collapse(x3)), None),
      CourseTime(Some(Drop(Collapse(x5), 6)), Some(Collapse(x6)), Some(Collapse(x3)), Some(Strip(TextOf(caption))))]
  {
    var p3 := [Text(x1), Text(x2), Text(x3)];
    var p5 := p3 + [hr, caption];
    SevenSplit(Text(x1), Text(x2), Text(x3), hr, caption, Text(x5), Text(x6));
    var b1, t1, l1 := Some(Drop(Collapse(x1), 6)), Some(Collapse(x2)), Some(Collapse(x3));
    var info := Some(Strip(TextOf(caption)));
    var s5 := Scan(b1, t1, l1, info, -1, [CourseTime(b1, t1, l1, None)]);
    assert ScanAll(p5) == s5 by {
      ScanThree(x1, x2, x3);
      ScanTwo(p3, hr, caption);
    }
    ScanTwo(p5, Text(x5), Text(x6));
    ExampleSecondMeeting(s5, x5, x6);
  }

  /** The layout sketched in the scanner's own comment: a caption, a
      "Block" line, times and location, an `hr`, then a second caption with
      times and location but no "Block" line. The second meeting inherits
      the block, so its location line is taken for the line after a block
      and overwrites its times: its own times are lost, and its location is
      the first meeting's. */
  lemma CommentLayoutExample(c1: Node, b: string, t1: string, l1: string, hr: Node, c2: Node, t2: string, l2: string)
    requires IsStrong(c1) && IsHr(hr) && IsStrong(c2)
    requires IsBlockLine(Collapse(b))
    requires Collapse(t1) != [] && !IsBlockLine(Collapse(t1))
    requires Collapse(l1) != [] && !IsBlockLine(Collapse(l1))
    requires Collapse(t2) != [] && !IsBlockLine(Collapse(t2))
    requires Collapse(l2) != [] && !IsBlockLine(Collapse(l2))
    ensures ParseTimesOf([c1, Text(b), Text(t1), Text(l1), hr, c2, Text(t2), Text(l2)]) == [
      CourseTime(Some(Drop(Collapse(b), 6)), Some(Collapse(t1)), Some(Collapse(l1)), Some(Strip(TextOf(c1)))),
      CourseTime(Some(Drop(Collapse(b), 6)), Some(Collapse(l2)), Some(Collapse(l1)), Some(Strip(TextOf(c2))))]
  {
    var first := [c1, Text(b), Text(t1), Text(l1)];
    var s4 := Scan(Some(Drop(Collapse(b), 6)), Some(Collapse(t1)), Some(Collapse(l1)), Some(Strip(TextOf(c1))), 2, []);
    assert ScanAll(first) == s4 by {
      ScanFour([], c1, Text(b), Text(t1), Text(l1));
      assert [] + first == first;
      CommentFirstMeeting(c1, b, t1, l1);
    }
    ScanFour(first, hr, c2, Text(t2), Text(l2));
    FourAndFour(c1, Text(b), Text(t1), Text(l1), hr, c2, Text(t2), Text(l2));
    var s5 := Step(s4, hr);
    assert s5 == s4.(schedule := [Pending(s4)], counter := -1);
    CommentSecondMeeting(s5, c2, t2, l2);
  }

  /** The comment's lecture: caption, block, times and location. */
  lemma CommentFirstMeeting(c1: Node, b: string, t1: string, l1: string)
    requires IsStrong(c1) && IsBlockLine(Collapse(b))
    requires Collapse(t1) != [] && !IsBlockLine(Collapse(t1))
    requires Collapse(l1) != [] && !IsBlockLine(Collapse(l1))
    ensures Step(Step(Step(Step(Start, c1), Text(b)), Text(t1)), Text(l1)) ==
      Scan(Some(Drop(Collapse(b), 6)), Some(Collapse(t1)), Some(Collapse(l1)), Some(Strip(TextOf(c1))), 2, [])
  {
    var s1 := Step(Start, c1);
    assert s1 == Start.(info := Some(Strip(TextOf(c1))));
    var s2 := Step(s1, Text(b));
    assert s2 == s1.(block := Some(Drop(Collapse(b), 6)), counter := 0);
  }

  /** The comment's recitation after the `hr`: caption, then two lines
      that both land in `times` because the block is inherited. */
  lemma CommentSecondMeeting(s: Scan, c2: Node, t2: string, l2: string)
    requires s.counter == -1 && s.block.Some? && IsStrong(c2)
    requires Collapse(t2) != [] && !IsBlockLine(Collapse(t2))
    requires Collapse(l2) != [] && !IsBlockLine(Collapse(l2))
    ensures Step(Step(Step(s, c2), Text(t2)), Text(l2)) ==
      s.(info := Some(Strip(TextOf(c2))), times := Some(Collapse(l2)), counter := 1)
  {
    var s1 := Step(s, c2);
    assert s1 == s.(info := Some(Strip(TextOf(c2))));
  }

  /** Splits of a display, proved generically: next to the scanner's
      definitions the same equalities cost the solver many times more. */
  lemma SevenSplit<T>(a: T, b: T, c: T, d: T, e: T, f: T, g: T)
    ensures [a, b, c, d, e, f, g] == [a, b, c] + [d, e] + [f, g]
  {
  }

  lemma FourAndFour<T>(a: T, b: T, c: T, d: T, e: T, f: T, g: T, h: T)
    ensures [a, b, c, d] + [e, f, g, h] == [a, b, c, d, e, f, g, h]
  {
  }

  lemma ScanFour(p: seq<Node>, a: Node, b: Node, c: Node, d: Node)
    ensures ScanAll(p + [a, b, c, d]) == Step(Step(Step(Step(ScanAll(p), a), b), c), d)
  {
    ScanTwo(p, a, b);
    assert p + [a, b, c, d] == (p + [a, b]) + [c, d];
    ScanTwo(p + [a, b], c, d);
  }

  /** The state after the first three lines of the example. */
  lemma ScanThree(x1: string, x2: string, x3: string)
    requires IsBlockLine(Collapse(x1))
    requires Collapse(x2) != [] && !IsBlockLine(Collapse(x2))
    requires Collapse(x3) != [] && !IsBlockLine(Collapse(x3))
    ensures ScanAll([Text(x1), Text(x2), Text(x3)]) ==
      Scan(Some(Drop(Collapse(x1), 6)), Some(Collapse(x2)), Some(Collapse(x3)), None, 2, [])
  {
    var p1 := [Text(x1)];
    ScanTwo(p1, Text(x2), Text(x3));
    assert ScanAll(p1) == Step(Start, Text(x1)) by {
      assert p1[..0] == [];
    }
    assert p1 + [Text(x2), Text(x3)] == [Text(x1), Text(x2), Text(x3)];
    var s1 := Step(Start, Text(x1));
    assert s1 == Scan(Some(Drop(Collapse(x1), 6)), None, None, None, 0, []);
    var s2 := Step(s1, Text(x2));
    assert s2 == s1.(times := Some(Collapse(x2)), counter := 1);
  }

  /** The example's second block and times lines, after the `hr`. */
  lemma ExampleSecondMeeting(s: Scan, x5: string, x6: string)
    requires s.counter == -1 && s.block.Some?
    requires IsBlockLine(Collapse(x5))
    requires Collapse(x6) != [] && !IsBlockLine(Collapse(x6))
    ensures Step(Step(s, Text(x5)), Text(x6)) ==
      s.(block := Some(Drop(Collapse(x5), 6)), times := Some(Collapse(x6)), counter := 1)
  {
  }

  lemma ScanTwo(p: seq<Node>, a: Node, b: Node)
    ensures ScanAll(p + [a, b]) == Step(Step(ScanAll(p), a), b)
  {
    ScanOne(p, a);
    assert p + [a, b] == (p + [a]) + [b];
    ScanOne(p + [a], b);
  }

  lemma ScanOne(p: seq<Node>, a: Node)
    ensures ScanAll(p + [a]) == Step(ScanAll(p), a)
  {
    LastOfAppend(p, a);
  }

  /** A block line whose "Block" is followed by any one whitespace
      character, a NO-BREAK SPACE included, collapses to "Block", a SPACE
      and the block name, so the block is that name. */
  lemma BlockAfterAnySpace(c: char, w: string)
    requires IsSpace(c) && IsWord(w)
    ensures Collapse("Block" + [c] + w) == "Block " + w
    ensures IsBlockLine(Collapse("Block" + [c] + w))
    ensures Drop(Collapse("Block" + [c] + w), 6) == w
  {
    var line := "Block" + [c] + w;
    BlockLineWords(c, w);
    assert Collapse(line) == Join(" ", ["Block", w]);
    assert Join(" ", ["Block", w]) == "Block " + w;
    var r := "Block " + w;
    assert r[..6] == "Block " && r[6..] == w;
  }

  lemma BlockLineWords(c: char, w: string)
    requires IsSpace(c) && IsWord(w)
    ensures Split("Block" + [c] + w) == ["Block", w]
  {
    var tail := [c] + w;
    assert "Block" + [c] + w == "Block" + tail;
    assert IsWord("Block") by {
      forall i | 0 <= i < 5 ensures !IsSpace("Block"[i]) {
      }
    }
    SplitConsWord("Block", tail);
    SplitOfSpacePrefix([c], w);
    SplitOfWord(w);
  }

  /** The fixture's "Block\U{00A0}S3" yields the block "S3". */
  lemma BlockWithNoBreakSpace()
    ensures Drop(Collapse("Block" + ['\U{00A0}'] + "S3"), 6) == "S3"
  {
    assert IsWord("S3");
    BlockAfterAnySpace('\U{00A0}', "S3");
  }
}

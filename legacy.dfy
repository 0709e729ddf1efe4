/** The older, top-level version of the extractor: its own meeting scanner,
    which mutates one `CourseTime` object at a time and counts every child;
    the chunking generator; and its row reader, which keeps the enrollment
    figures as the words of the cell. */
module Legacy {
  import opened Wrappers
  import opened Strings
  import opened Markup
  import Fields
  import Page
  import Schedule

  // ---------------------------------------------------------------------
  // parse_times

  /** The value of a meeting object: its four declared fields, and the
      attribute `time` that the times branch creates by its misspelt
      assignment. */
  datatype Meeting = Meeting(
    block: Option<string>,
    times: Option<string>,
    location: Option<string>,
    info: Option<string>,
    time: Option<string>)

  const Blank := Meeting(None, None, None, None, None)

  /** The mutable `CourseTime` record of the legacy module. */
  class CourseTime {
    var block: Option<string>
    var times: Option<string>
    var location: Option<string>
    var info: Option<string>
    var time: Option<string>

    /** `CourseTime()`: every field `None`. */
    constructor ()
      ensures Value() == Blank
    {
      block, times, location, info, time := None, None, None, None, None;
    }

    function Value(): Meeting
      reads this
    {
      Meeting(block, times, location, info, time)
    }
  }

  /** The values of a list of meeting objects. */
  function Values(ms: seq<CourseTime>): (r: seq<Meeting>)
    reads ms
    ensures |r| == |ms|
    decreases |ms|
  {
    if ms == [] then [] else Values(ms[..|ms| - 1]) + [ms[|ms| - 1].Value()]
  }

  /** The scanner's state: the meetings appended so far, the value of the
      current meeting, and the counter `i`. */
  datatype Scan = Scan(closed: seq<Meeting>, meeting: Meeting, i: int)

  const Start := Scan([], Blank, 0)

  /** One stripped string: a "Block" line names the block, the string at
      `i == 0`, or at `i == 1` when a block is known, goes to `time`, any
      other to `location`. */
  function Line(m: Meeting, i: int, el: string): Meeting {
    if "Block" <= el then m.(block := Some(Drop(el, 6)))
    else if i == 0 || (m.block.Some? && i == 1) then m.(time := Some(el))
    else m.(location := Some(el))
  }

  /** What a child other than an `hr` does to the current meeting: a
      `strong` tag sets `info`, a string is stripped and filed by `Line`,
      any other tag changes nothing. */
  function Absorb(m: Meeting, i: int, n: Node): Meeting {
    match n
    case Tag(name, _, _) => if name == "strong" then m.(info := Some(Strip(TextOf(n)))) else m
    case Text(raw) => Line(m, i, Strip(raw))
  }

  /** One child. An `hr` appends the meeting and starts a new one with the
      counter reset to 0, so that the increment after it leaves 1. Every
      child increments the counter. */
  function Step(s: Scan, n: Node): Scan {
    if n.Tag? && n.name == "hr" then Scan(s.closed + [s.meeting], Blank, 1)
    else Scan(s.closed, Absorb(s.meeting, s.i, n), s.i + 1)
  }

  function ScanAll(cs: seq<Node>): Scan
    decreases |cs|
  {
    if cs == [] then Start else Step(ScanAll(cs[..|cs| - 1]), cs[|cs| - 1])
  }

  /** The meetings of the cell: those closed by an `hr`, then the last. */
  function ParseTimesOf(cs: seq<Node>): seq<Meeting> {
    ScanAll(cs).closed + [ScanAll(cs).meeting]
  }

  lemma ScanSnoc(cs: seq<Node>, k: nat)
    requires k < |cs|
    ensures ScanAll(cs[..k + 1]) == Step(ScanAll(cs[..k]), cs[k])
  {
    assert cs[..k + 1][..k] == cs[..k];
  }

  lemma ValuesSnoc(ms: seq<CourseTime>, m: CourseTime)
    ensures Values(ms + [m]) == Values(ms) + [m.Value()]
  {
    assert (ms + [m])[..|ms|] == ms;
  }

  /** `parse_times(time_location)` of the legacy module: each meeting is a
      new object, none shared between two entries, and their values are
      the scan of the cell's children. */
  method ParseTimes(timeLocation: Element) returns (schedule: seq<CourseTime>)
    ensures Values(schedule) == ParseTimesOf(timeLocation.children)
    ensures forall o :: o in schedule ==> fresh(o)
    ensures Distinct(schedule)
  {
    var cs := timeLocation.children;
    var meeting := new CourseTime();
    schedule := [];
    var i := 0;
    for k := 0 to |cs|
      invariant fresh(meeting) && meeting !in schedule
      invariant forall o :: o in schedule ==> fresh(o)
      invariant Distinct(schedule)
      invariant Scan(Values(schedule), meeting.Value(), i) == ScanAll(cs[..k])
    {
      var el := cs[k];
      ScanSnoc(cs, k);
      if el.Tag? && el.name == "hr" {
        ValuesSnoc(schedule, meeting);
        AppendDistinct(schedule, meeting);
        schedule := schedule + [meeting];
        i := 0;
        meeting := new CourseTime();
      } else {
        AbsorbInto(meeting, i, el);
      }
      i := i + 1;
    }
    assert cs[..|cs|] == cs;
    ValuesSnoc(schedule, meeting);
    AppendDistinct(schedule, meeting);
    schedule := schedule + [meeting];
  }

  /** No object occurs twice in `ms`. */
  predicate Distinct(ms: seq<CourseTime>) {
    forall j, l :: 0 <= j < l < |ms| ==> ms[j] != ms[l]
  }

  /** Appending an object not yet in the list keeps it free of repeats. */
  lemma AppendDistinct(ms: seq<CourseTime>, m: CourseTime)
    requires Distinct(ms) && m !in ms
    ensures Distinct(ms + [m])
  {
    var all := ms + [m];
    forall j, l | 0 <= j < l < |all| ensures all[j] != all[l] {
      assert all[j] == ms[j];
    }
  }

  /** The loop body for a child other than an `hr`: update the current
      meeting object in place. */
  method AbsorbInto(meeting: CourseTime, i: int, el: Node)
    modifies meeting
    ensures meeting.Value() == Absorb(old(meeting.Value()), i, el)
  {
    if el.Tag? {
      if el.name == "strong" {
        meeting.info := Some(Strip(TextOf(el)));
      }
    } else {
      var line := Strip(el.s);
      if "Block" <= line {
        meeting.block := Some(Drop(line, 6));
      } else if i == 0 || (meeting.block.Some? && i == 1) {
        meeting.time := Some(line);
      } else {
        meeting.location := Some(line);
      }
    }
  }

  // Properties of the legacy scan

  /** One meeting per `hr`, plus the last: never empty. */
  lemma {:induction false} MeetingCount(cs: seq<Node>)
    ensures |ScanAll(cs).closed| == |FilterTags(cs, "hr")|
    ensures |ParseTimesOf(cs)| == |FilterTags(cs, "hr")| + 1
    decreases |cs|
  {
    if cs != [] {
      var p, n := cs[..|cs| - 1], cs[|cs| - 1];
      assert cs == p + [n];
      MeetingCount(p);
      FilterTagsAppend(p, [n], "hr");
    }
  }

  /** No meeting of the state has `times` set. */
  predicate NoTimes(s: Scan) {
    s.meeting.times.None? && forall k :: 0 <= k < |s.closed| ==> s.closed[k].times.None?
  }

  /** The misspelt assignment never reaches `times`: every meeting keeps
      `times == None`. */
  lemma {:induction false} TimesNeverSet(cs: seq<Node>)
    ensures NoTimes(ScanAll(cs))
    ensures forall k :: 0 <= k < |ParseTimesOf(cs)| ==> ParseTimesOf(cs)[k].times.None?
    decreases |cs|
  {
    if cs != [] {
      var p := cs[..|cs| - 1];
      TimesNeverSet(p);
      var s := ScanAll(p);
      var t := Step(s, cs[|cs| - 1]);
      assert t.meeting.times.None?;
      forall k | 0 <= k < |t.closed| ensures t.closed[k].times.None? {
        if k < |s.closed| {
          assert t.closed[k] == s.closed[k];
        }
      }
    }
    var s := ScanAll(cs);
    assert ParseTimesOf(cs) == s.closed + [s.meeting];
  }

  /** The counter: every child since the last `hr` counts, and the `hr`
      itself leaves 1; with no `hr` yet, every child counts. */
  function Counter(cs: seq<Node>): nat {
    |Schedule.Segment(cs)| + (if FilterTags(cs, "hr") == [] then 0 else 1)
  }

  lemma {:induction false} CounterCountsChildren(cs: seq<Node>)
    ensures ScanAll(cs).i == Counter(cs)
    decreases |cs|
  {
    if cs != [] {
      var p, n := cs[..|cs| - 1], cs[|cs| - 1];
      assert cs == p + [n];
      CounterCountsChildren(p);
      FilterTagsAppend(p, [n], "hr");
    }
  }

  /** An `hr` starts a meeting with every field `None` and the counter at 1,
      so the first child after it sees `i == 1`. */
  lemma FreshAfterHr(p: seq<Node>, h: Node)
    requires h.Tag? && h.name == "hr"
    ensures ScanAll(p + [h]).meeting == Blank && ScanAll(p + [h]).i == 1
    ensures ScanAll(p + [h]).closed == ScanAll(p).closed + [ScanAll(p).meeting]
  {
    assert (p + [h])[..|p|] == p;
  }

  /** Nothing before an `hr` reaches the meetings after it: the state after
      `p + [h] + q` is that after `[h] + q`, apart from the meetings closed
      before. */
  lemma {:induction false} NothingInherited(p: seq<Node>, h: Node, q: seq<Node>)
    requires h.Tag? && h.name == "hr"
    ensures ScanAll(p + [h] + q).meeting == ScanAll([h] + q).meeting
    ensures ScanAll(p + [h] + q).i == ScanAll([h] + q).i
    decreases |q|
  {
    if q == [] {
      FreshAfterHr(p, h);
      FreshAfterHr([], h);
      assert p + [h] + q == p + [h];
      assert [h] + q == [] + [h];
    } else {
      var q1, n := q[..|q| - 1], q[|q| - 1];
      NothingInherited(p, h, q1);
      assert (p + [h] + q)[..|p + [h] + q| - 1] == p + [h] + q1;
      assert ([h] + q)[..|[h] + q| - 1] == [h] + q1;
    }
  }

  /** A blank string is not skipped: past the first two positions it sets
      `location` to the empty string, and it still advances the counter. */
  lemma BlankSetsLocation(s: Scan, raw: string)
    requires AllSpace(raw)
    requires !(s.i == 0 || (s.meeting.block.Some? && s.i == 1))
    ensures Step(s, Text(raw)).meeting == s.meeting.(location := Some(""))
    ensures Step(s, Text(raw)).i == s.i + 1
  {
    StripSpec(raw);
  }

  /** How the text child after `p` is filed, in terms of the children
      before it. */
  lemma TextClassified(p: seq<Node>, raw: string)
    ensures var m, before, el := ScanAll(p + [Text(raw)]).meeting, ScanAll(p).meeting, Strip(raw);
      if "Block" <= el then m == before.(block := Some(Drop(el, 6)))
      else if Counter(p) == 0 || (before.block.Some? && Counter(p) == 1) then m == before.(time := Some(el))
      else m == before.(location := Some(el))
  {
    assert (p + [Text(raw)])[..|p|] == p;
    CounterCountsChildren(p);
  }

  /** A tag other than an `hr` closes no meeting and advances the counter.
      A `strong` sets `info` to its stripped text and nothing else; any
      other tag leaves the meeting as it was. */
  lemma TagAbsorbed(p: seq<Node>, name: string, a: map<string, string>, cs: seq<Node>)
    requires name != "hr"
    ensures var s, n := ScanAll(p), Tag(name, a, cs);
      ScanAll(p + [n]) == s.(
        meeting := if name == "strong" then s.meeting.(info := Some(Strip(TextOf(n)))) else s.meeting,
        i := s.i + 1)
  {
    assert (p + [Tag(name, a, cs)])[..|p|] == p;
  }

  // ---------------------------------------------------------------------
  // grouper

  /** The chunks of `xs` of `n` elements each, the last possibly shorter. */
  function Chunks<T>(xs: seq<T>, n: nat): (r: seq<seq<T>>)
    requires n >= 1
    ensures r == [] <==> xs == []
    ensures |r| <= |xs|
    decreases |xs|
  {
    if xs == [] then []
    else if |xs| <= n then [xs]
    else [xs[..n]] + Chunks(xs[n..], n)
  }

  function Flatten<T>(xss: seq<seq<T>>): seq<T>
    decreases |xss|
  {
    if xss == [] then [] else xss[0] + Flatten(xss[1..])
  }

  /** `[list(c) for c in grouper(xs, n)]`, each chunk consumed before the
      next is taken: `islice` rejects a negative size with `ValueError`; a
      size of 0 stops at once. */
  method Grouper<T>(xs: seq<T>, n: int) returns (r: Result<seq<seq<T>>>)
    ensures n < 0 ==> r == Err(ValueError)
    ensures n == 0 ==> r == Ok([])
    ensures n > 0 ==> r == Ok(Chunks(xs, n))
  {
    if n < 0 {
      return Err(ValueError);
    }
    var it := 0;
    var chunks: seq<seq<T>> := [];
    while it < |xs| && n > 0
      invariant 0 <= it <= |xs|
      invariant n > 0 ==> Chunks(xs, n) == chunks + Chunks(xs[it..], n)
      invariant n == 0 ==> chunks == []
      decreases |xs| - it
    {
      var start := it;
      var chunk := [xs[it]];
      it := it + 1;
      while it - start < n && it < |xs|
        invariant start < it <= |xs| && it - start <= n
        invariant chunk == xs[start..it]
        decreases |xs| - it
      {
        chunk := chunk + [xs[it]];
        it := it + 1;
      }
      ChunksStep(xs, start, it, n);
      chunks := chunks + [chunk];
    }
    if n > 0 {
      assert xs[it..] == [];
      assert chunks + Chunks(xs[it..], n) == chunks;
    }
    return Ok(chunks);
  }

  /** The first chunk of `xs[start..]`, taken by the inner loop. */
  lemma ChunksStep<T>(xs: seq<T>, start: nat, it: nat, n: nat)
    requires n >= 1 && start < it <= |xs| && it - start <= n
    requires it - start == n || it == |xs|
    ensures Chunks(xs[start..], n) == [xs[start..it]] + Chunks(xs[it..], n)
  {
    var ys := xs[start..];
    if |ys| <= n {
      assert it == |xs|;
      assert ys == xs[start..it];
      assert xs[it..] == [];
    } else {
      assert ys[..n] == xs[start..it];
      assert ys[n..] == xs[it..];
    }
  }

  /** The chunks put back together are `xs`. */
  lemma {:induction false} FlattenChunks<T>(xs: seq<T>, n: nat)
    requires n >= 1
    ensures Flatten(Chunks(xs, n)) == xs
    decreases |xs|
  {
    if xs != [] && |xs| > n {
      FlattenChunks(xs[n..], n);
      assert xs == xs[..n] + xs[n..];
    } else if xs != [] {
      assert Flatten([xs]) == xs + Flatten([xs][1..]);
      assert [xs][1..] == [];
    }
  }

  /** Every chunk is non-empty and holds at most `n` elements. */
  lemma {:induction false} ChunksBounded<T>(xs: seq<T>, n: nat)
    requires n >= 1
    ensures forall k :: 0 <= k < |Chunks(xs, n)| ==> 1 <= |Chunks(xs, n)[k]| <= n
    decreases |xs|
  {
    if xs != [] && |xs| > n {
      ChunksBounded(xs[n..], n);
      var rest := Chunks(xs[n..], n);
      assert Chunks(xs, n) == [xs[..n]] + rest;
    }
  }

  /** Every chunk but the last holds exactly `n` elements. */
  lemma {:induction false} ChunksFull<T>(xs: seq<T>, n: nat)
    requires n >= 1
    ensures forall k :: 0 <= k < |Chunks(xs, n)| - 1 ==> |Chunks(xs, n)[k]| == n
    decreases |xs|
  {
    if xs != [] && |xs| > n {
      ChunksFull(xs[n..], n);
      var rest := Chunks(xs[n..], n);
      assert Chunks(xs, n) == [xs[..n]] + rest;
    }
  }

  /** There are `ceil(|xs| / n)` chunks: enough for `xs`, and one fewer
      would not be. */
  lemma {:induction false} ChunksCount<T>(xs: seq<T>, n: nat)
    requires n >= 1
    ensures Chunks(xs, n) == [] <==> xs == []
    ensures xs != [] ==> (|Chunks(xs, n)| - 1) * n < |xs| <= |Chunks(xs, n)| * n
    decreases |xs|
  {
    if xs != [] && |xs| > n {
      ChunksCount(xs[n..], n);
      var c := |Chunks(xs[n..], n)|;
      assert Chunks(xs, n) == [xs[..n]] + Chunks(xs[n..], n);
      assert |Chunks(xs, n)| == c + 1;
      CountStep(c, n, |xs| - n);
    }
  }

  /** One more chunk of `n` covers `n` more elements. */
  lemma CountStep(c: int, n: nat, m: int)
    requires (c - 1) * n < m <= c * n
    ensures c * n < m + n <= (c + 1) * n
  {
    assert (c + 1) * n == c * n + n;
    assert c * n == (c - 1) * n + n;
  }

  /** The chunks are the only split of `xs` with that shape. */
  lemma {:induction false} ChunksUnique<T>(xss: seq<seq<T>>, n: nat)
    requires n >= 1
    requires forall k :: 0 <= k < |xss| ==> 1 <= |xss[k]| <= n
    requires forall k :: 0 <= k < |xss| - 1 ==> |xss[k]| == n
    ensures Chunks(Flatten(xss), n) == xss
    decreases |xss|
  {
    if xss != [] {
      var xs := Flatten(xss);
      assert xs == xss[0] + Flatten(xss[1..]);
      ChunksUnique(xss[1..], n);
      if |xss| == 1 {
        assert xss[1..] == [];
        assert xs == xss[0];
      } else {
        FlattenNonEmpty(xss[1..]);
        assert xs[..n] == xss[0];
        assert xs[n..] == Flatten(xss[1..]);
      }
    }
  }

  lemma {:induction false} FlattenNonEmpty<T>(xss: seq<seq<T>>)
    requires xss != [] && xss[0] != []
    ensures Flatten(xss) != []
  {
  }

  // ---------------------------------------------------------------------
  // row_to_course

  /** A course as the legacy row reader builds it: one instructor, the
      enrollment figures as words, no section. */
  datatype Course = Course(
    name: string,
    classNumber: int,
    subject: string,
    number: int,
    group: string,
    schedule: seq<Meeting>,
    enrollmentStatus: string,
    enrolled: string,
    limit: string,
    waiting: string,
    instructor: string,
    instructorId: string,
    description: string,
    uniReqs: seq<string>)

  datatype Figures = Figures(enrolled: string, limit: string, waiting: string)

  /** The words at positions 0, 2 and 4 of the enrollment cell's last
      content node, which must split into exactly five words. */
  function RawEnrollment(td: Element): (r: Result<Figures>)
    ensures td.children == [] ==> r == Err(IndexError)
    ensures td.children != [] && td.children[|td.children| - 1].Tag? ==> r == Err(TypeError)
    ensures r.Err? ==> r.error in {IndexError, TypeError, ValueError}
    ensures td.children != [] && td.children[|td.children| - 1].Text? ==>
      (r.Ok? <==> |Split(td.children[|td.children| - 1].s)| == 5)
    ensures r.Ok? ==> var ws := Split(td.children[|td.children| - 1].s);
      |ws| == 5 && r.value == Figures(ws[0], ws[2], ws[4])
  {
    if td.children == [] then Err(IndexError)
    else
      var last := td.children[|td.children| - 1];
      if last.Tag? then Err(TypeError)
      else
        var ws := Split(last.s);
        if |ws| != 5 then Err(ValueError) else Ok(Figures(ws[0], ws[2], ws[4]))
  }

  /** The legacy reader keeps the words whose integers the newer reader
      stores: wherever the newer one succeeds, so does the legacy one, and
      `int()` of each word is the newer figure. */
  lemma RawEnrollmentAgrees(td: Element)
    requires Fields.EnrollmentInfo(td).Ok?
    ensures RawEnrollment(td).Ok?
    ensures var f, e := RawEnrollment(td).value, Fields.EnrollmentInfo(td).value;
      ParseInt(f.enrolled) == Ok(e.enrolled) && ParseInt(f.limit) == Ok(e.limit)
      && ParseInt(f.waiting) == Ok(e.waiting)
  {
  }

  /** `instructor.find('a')['href']` searched for the id: no link is a
      `TypeError` (`None` is not subscriptable), no `href` a `KeyError`,
      no match an `AttributeError`. */
  function InstructorLinkId(td: Element): (r: Result<string>)
    ensures Find(td, "a").None? ==> r == Err(TypeError)
    ensures Find(td, "a").Some? ==> r == Fields.InstructorId(Find(td, "a").value)
  {
    match Find(td, "a")
    case None => Err(TypeError)
    case Some(a) => Fields.InstructorId(a)
  }

  /** `row_to_course(tr)` with the description the fetch returned passed
      in. The cells are every `td` below the row; fewer than six fail the
      unpacking with `ValueError`. */
  function RowToCourse(tr: Element, description: string): (r: Result<Course>)
    ensures |FindAll(tr, "td")| < 6 ==> r == Err(ValueError)
  {
    var tds := FindAll(tr, "td");
    if |tds| < 6 then Err(ValueError) else CourseOfCells(tds, description)
  }

  /** The six leading cells as a legacy course, the extractors running in
      the source's order. */
  function CourseOfCells(tds: seq<Element>, description: string): Result<Course>
    requires |tds| >= 6
  {
    var classNumber, courseId, titleReqs, timeLocation, enrollment, instructor :=
      tds[0], tds[1], tds[2], tds[3], tds[4], tds[5];
    var ids :- Fields.CourseIds(courseId);
    var name :- Page.CourseName(titleReqs);
    var reqs := Fields.UniReqs(titleReqs);
    var figures :- RawEnrollment(enrollment);
    var id :- InstructorLinkId(instructor);
    var number :- ParseInt(TextOf(classNumber));
    var status :- Fields.EnrollmentStatus(enrollment);
    Ok(Course(
      name := name,
      classNumber := number,
      subject := ids.subject,
      number := ids.number,
      group := ids.group,
      schedule := ParseTimesOf(timeLocation.children),
      enrollmentStatus := status,
      enrolled := figures.enrolled,
      limit := figures.limit,
      waiting := figures.waiting,
      instructor := Strip(TextOf(instructor)),
      instructorId := id,
      description := description,
      uniReqs := reqs))
  }

  /** A legacy row is built exactly when every extractor it runs succeeds. */
  lemma CellsOk(tds: seq<Element>, description: string)
    requires |tds| >= 6
    ensures CourseOfCells(tds, description).Ok? <==>
      && Fields.CourseIds(tds[1]).Ok? && Page.CourseName(tds[2]).Ok?
      && RawEnrollment(tds[4]).Ok? && InstructorLinkId(tds[5]).Ok?
      && ParseInt(TextOf(tds[0])).Ok? && Fields.EnrollmentStatus(tds[4]).Ok?
  {
    if Fields.CourseIds(tds[1]).Err? {
    } else if Page.CourseName(tds[2]).Err? {
    } else if RawEnrollment(tds[4]).Err? {
    } else if InstructorLinkId(tds[5]).Err? {
    } else if ParseInt(TextOf(tds[0])).Err? {
    }
  }

  /** Each field of a legacy row comes from its column: identifiers from
      the second cell, name and requirements from the third, meetings from
      the fourth, raw figures and status from the fifth, instructor from
      the sixth, and the description as fetched. */
  lemma CellsFields(tds: seq<Element>, description: string)
    requires |tds| >= 6 && CourseOfCells(tds, description).Ok?
    ensures var c, ids := CourseOfCells(tds, description).value, Fields.CourseIds(tds[1]);
      ids.Ok? && c.subject == ids.value.subject && c.number == ids.value.number
      && c.group == ids.value.group
      && Ok(c.classNumber) == ParseInt(TextOf(tds[0]))
      && Ok(c.name) == Page.CourseName(tds[2])
      && c.uniReqs == Fields.UniReqs(tds[2])
      && c.schedule == ParseTimesOf(tds[3].children)
      && Ok(Figures(c.enrolled, c.limit, c.waiting)) == RawEnrollment(tds[4])
      && Ok(c.enrollmentStatus) == Fields.EnrollmentStatus(tds[4])
      && c.instructor == Strip(TextOf(tds[5]))
      && Ok(c.instructorId) == InstructorLinkId(tds[5])
      && c.description == description
  {
    CellsOk(tds, description);
    var ids, name, figures := Fields.CourseIds(tds[1]).value, Page.CourseName(tds[2]).value, RawEnrollment(tds[4]).value;
    var id, number, status := InstructorLinkId(tds[5]).value, ParseInt(TextOf(tds[0])).value, Fields.EnrollmentStatus(tds[4]).value;
    assert CourseOfCells(tds, description).value == Course(
      name, number, ids.subject, ids.number, ids.group, ParseTimesOf(tds[3].children),
      status, figures.enrolled, figures.limit, figures.waiting, Strip(TextOf(tds[5])), id,
      description, Fields.UniReqs(tds[2]));
  }

  /** The legacy row's number is the integer of the digit run that opens
      the second word of the course-id cell, the enrollment figures are the
      cell's first, third and fifth words, and the schedule has one meeting
      per `hr` plus one, none with `times` set. */
  lemma CellsShape(tds: seq<Element>, description: string)
    requires |tds| >= 6 && CourseOfCells(tds, description).Ok?
    ensures var c, ws := CourseOfCells(tds, description).value, Split(TextOf(tds[1]));
      |ws| >= 3 && c.subject == ws[0]
      && Fields.DigitRun(ws[1]) != [] && c.number == DigitsValue(Fields.DigitRun(ws[1]))
      && Fields.IsGroupOf(ws[1], c.group)
      && (var vs := Split(tds[4].children[|tds[4].children| - 1].s);
          |vs| == 5 && c.enrolled == vs[0] && c.limit == vs[2] && c.waiting == vs[4])
      && |c.schedule| == |FilterTags(tds[3].children, "hr")| + 1
      && (forall k :: 0 <= k < |c.schedule| ==> c.schedule[k].times.None?)
  {
    CellsFields(tds, description);
    MeetingCount(tds[3].children);
    TimesNeverSet(tds[3].children);
  }
}

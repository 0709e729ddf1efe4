/** The records the extractor produces (`CourseTime`, `Instructor`,
    `Course`), their display properties, and their conversion to and from
    the dictionary form that is written out as JSON. */
module Records {
  import opened Wrappers
  import opened Strings

  /** One meeting of a course. A field is `None` when the schedule cell
      never supplied it. */
  datatype CourseTime = CourseTime(
    block: Option<string>,
    times: Option<string>,
    location: Option<string>,
    info: Option<string>)

  datatype Instructor = Instructor(name: string, id: string)

  datatype Course = Course(
    name: string,
    classNumber: int,
    subject: string,
    number: int,
    group: string,
    section: string,
    schedule: seq<CourseTime>,
    enrolled: int,
    limit: int,
    waiting: int,
    enrollmentStatus: string,
    syllabus: string,
    instructors: seq<Instructor>,
    uniReqs: seq<string>,
    description: Option<string>,
    notes: Option<string>,
    semester: Option<string>,
    year: Option<int>)

  /** The faculty-guide page an instructor id points to. */
  const FacultyGuidePrefix := "https://www.brandeis.edu/facguide/person.html?emplid="

  /** The link `instructor_links` yields. Its string is not an f-string,
      so the placeholder stays in it literally. */
  const LiteralLink := FacultyGuidePrefix + "{instructor.id}"

  /** `instructor_links` as written: one link per instructor, each the same
      literal string, whatever the instructor's id. */
  function InstructorLinks(c: Course): (r: seq<string>)
    ensures |r| == |c.instructors|
    ensures forall k :: 0 <= k < |r| ==> r[k] == LiteralLink
  {
    seq(|c.instructors|, _ => LiteralLink)
  }

  /** The links as written do not depend on the instructors' ids: two
      courses with as many instructors have the same links. */
  lemma InstructorLinksIgnoreIds(c: Course, d: Course)
    requires |c.instructors| == |d.instructors|
    ensures InstructorLinks(c) == InstructorLinks(d)
  {
  }

  /** `instructor_links` as its docstring describes it: one faculty-guide
      URL per instructor, in order, ending in that instructor's id. */
  function IntendedInstructorLinks(c: Course): (r: seq<string>)
    ensures |r| == |c.instructors|
    ensures forall k :: 0 <= k < |r| ==> FacultyGuidePrefix <= r[k] && r[k][|FacultyGuidePrefix|..] == c.instructors[k].id
  {
    seq(|c.instructors|, k requires 0 <= k < |c.instructors| => FacultyGuidePrefix + c.instructors[k].id)
  }

  /** The part of the display name after the subject: number, group and,
      when there is a section, an underscore and the section. */
  function NumberPart(c: Course): string {
    IntToString(c.number) + c.group + (if c.section != "" then "_" + c.section else "")
  }

  /** `friendly_number`, e.g. "COSI 119A_1". */
  function FriendlyNumber(c: Course): (r: string)
    ensures c.subject + " " + IntToString(c.number) + c.group <= r
    ensures c.section == "" <==> |r| == |c.subject| + 1 + |IntToString(c.number)| + |c.group|
    ensures c.section != "" ==> |c.section| + 1 < |r| && r[|r| - |c.section| - 1..] == "_" + c.section
    ensures c.section != "" ==> |r| == |c.subject| + 1 + |IntToString(c.number)| + |c.group| + 1 + |c.section|
  {
    c.subject + " " + NumberPart(c)
  }

  /** The fixture's display name: COSI, 119, group A, section 1. */
  lemma FriendlyNumberExample(c: Course)
    requires c.subject == "COSI" && c.number == 119 && c.group == "A" && c.section == "1"
    ensures FriendlyNumber(c) == "COSI 119A_1"
  {
    assert IntToString(119) == "119";
  }

  /** The display name splits, on whitespace, into the subject and the
      number part; the section is appended with an underscore only when it
      is non-empty. */
  lemma FriendlyNumberParts(c: Course)
    requires IsWord(c.subject) && NoSpace(c.group) && NoSpace(c.section)
    ensures Split(FriendlyNumber(c)) == [c.subject, NumberPart(c)]
    ensures c.section == "" <==> NumberPart(c) == IntToString(c.number) + c.group
  {
    var p := NumberPart(c);
    var d := IntToString(c.number);
    assert IsWord(d) by {
      forall i | 0 <= i < |d| ensures !IsSpace(d[i]) {
        DigitIsNotSpace(d[i]);
      }
    }
    assert IsWord(p) by {
      var tail := if c.section != "" then "_" + c.section else "";
      assert p == d + c.group + tail;
      forall i | 0 <= i < |p| ensures !IsSpace(p[i]) {
        if i < |d| {
          assert p[i] == d[i];
        } else if i < |d| + |c.group| {
          assert p[i] == c.group[i - |d|];
        } else if c.section != "" {
          assert p[i] == tail[i - |d| - |c.group|];
          if i > |d| + |c.group| {
            assert p[i] == c.section[i - |d| - |c.group| - 1];
          }
        }
      }
    }
    assert AllWords([c.subject, p]) by {
      assert [c.subject, p][1..] == [p];
      var one: seq<string> := [p];
      assert one[1..] == [];
    }
    SplitJoin([c.subject, p]);
    assert Join(" ", [c.subject, p]) == FriendlyNumber(c) by {
      assert [c.subject, p][1..] == [p];
    }
    if c.section != "" {
      assert |NumberPart(c)| > |d + c.group|;
    }
  }

  /** `uni_reqs_str`: the requirements as "[a, b]", or "" when there are
      none. */
  function UniReqsStr(c: Course): (r: string)
    ensures r == "" <==> c.uniReqs == []
    ensures r != "" ==> r[0] == '[' && r[|r| - 1] == ']' && r[1..|r| - 1] == Join(", ", c.uniReqs)
  {
    if c.uniReqs != [] then "[" + Join(", ", c.uniReqs) + "]" else ""
  }

  /** `instructor_str`: the instructor names joined by "; ". */
  function InstructorStr(c: Course): (r: string)
    ensures c.instructors == [] ==> r == ""
    ensures |c.instructors| == 1 ==> r == c.instructors[0].name
  {
    if c.instructors != [] then
      Join("; ", seq(|c.instructors|, k requires 0 <= k < |c.instructors| => c.instructors[k].name))
    else ""
  }

  /** `str(course)`: display name, title, instructors in parentheses, then
      the requirements when there are any. */
  function CourseStr(c: Course): (r: string)
    ensures FriendlyNumber(c) + " " + c.name + " (" + InstructorStr(c) + ")" <= r
    ensures c.uniReqs == [] <==> r == FriendlyNumber(c) + " " + c.name + " (" + InstructorStr(c) + ")"
    ensures var head := FriendlyNumber(c) + " " + c.name + " (" + InstructorStr(c) + ")";
      c.uniReqs != [] ==> |r| == |head| + 1 + |UniReqsStr(c)| && r[|head|] == ' ' && r[|head| + 1..] == UniReqsStr(c)
  {
    var head := FriendlyNumber(c) + " " + c.name + " (" + InstructorStr(c) + ")";
    if c.uniReqs != [] then head + " " + UniReqsStr(c) else head
  }

  // ---------------------------------------------------------------------
  // Dictionary form

  /** A JSON-like value: what `dict()` builds and `from_dict` reads. */
  datatype Json =
    | JNull
    | JInt(i: int)
    | JStr(s: string)
    | JList(items: seq<Json>)
    | JDict(fields: map<string, Json>)

  function OptStrToJson(o: Option<string>): Json {
    match o
    case None => JNull
    case Some(s) => JStr(s)
  }

  function OptStrFromJson(j: Json): Result<Option<string>> {
    match j
    case JNull => Ok(None)
    case JStr(s) => Ok(Some(s))
    case _ => Err(TypeError)
  }

  function StrFromJson(j: Json): Result<string> {
    if j.JStr? then Ok(j.s) else Err(TypeError)
  }

  function IntFromJson(j: Json): Result<int> {
    if j.JInt? then Ok(j.i) else Err(TypeError)
  }

  const CourseTimeKeys: set<string> := {"block", "times", "location", "info"}

  /** `CourseTime.dict()`. */
  function CourseTimeToDict(t: CourseTime): Json {
    JDict(map[
      "block" := OptStrToJson(t.block),
      "times" := OptStrToJson(t.times),
      "location" := OptStrToJson(t.location),
      "info" := OptStrToJson(t.info)])
  }

  /** `CourseTime(**d)`: the keys must be exactly the four field names. */
  function CourseTimeFromDict(j: Json): Result<CourseTime> {
    if !j.JDict? || j.fields.Keys != CourseTimeKeys then Err(TypeError)
    else
      var block :- OptStrFromJson(j.fields["block"]);
      var times :- OptStrFromJson(j.fields["times"]);
      var location :- OptStrFromJson(j.fields["location"]);
      var info :- OptStrFromJson(j.fields["info"]);
      Ok(CourseTime(block, times, location, info))
  }

  const InstructorKeys: set<string> := {"name", "id"}

  /** `Instructor.dict()`. */
  function InstructorToDict(i: Instructor): Json {
    JDict(map["name" := JStr(i.name), "id" := JStr(i.id)])
  }

  /** `Instructor(**d)`. */
  function InstructorFromDict(j: Json): Result<Instructor> {
    if !j.JDict? || j.fields.Keys != InstructorKeys then Err(TypeError)
    else
      var name :- StrFromJson(j.fields["name"]);
      var id :- StrFromJson(j.fields["id"]);
      Ok(Instructor(name, id))
  }

  function ScheduleToJson(ts: seq<CourseTime>): seq<Json> {
    seq(|ts|, k requires 0 <= k < |ts| => CourseTimeToDict(ts[k]))
  }

  function ScheduleFromJson(js: seq<Json>): (r: Result<seq<CourseTime>>)
    ensures r.Err? ==> r.error == TypeError
  {
    if js == [] then Ok([])
    else
      var t :- CourseTimeFromDict(js[0]);
      var rest :- ScheduleFromJson(js[1..]);
      Ok([t] + rest)
  }

  function InstructorsToJson(xs: seq<Instructor>): seq<Json> {
    seq(|xs|, k requires 0 <= k < |xs| => InstructorToDict(xs[k]))
  }

  function InstructorsFromJson(js: seq<Json>): (r: Result<seq<Instructor>>)
    ensures r.Err? ==> r.error == TypeError
  {
    if js == [] then Ok([])
    else
      var i :- InstructorFromDict(js[0]);
      var rest :- InstructorsFromJson(js[1..]);
      Ok([i] + rest)
  }

  function StringsToJson(xs: seq<string>): seq<Json> {
    seq(|xs|, k requires 0 <= k < |xs| => JStr(xs[k]))
  }

  function StringsFromJson(js: seq<Json>): (r: Result<seq<string>>)
    ensures r.Err? ==> r.error == TypeError
  {
    if js == [] then Ok([])
    else
      var x :- StrFromJson(js[0]);
      var rest :- StringsFromJson(js[1..]);
      Ok([x] + rest)
  }

  function OptIntToJson(o: Option<int>): Json {
    match o
    case None => JNull
    case Some(i) => JInt(i)
  }

  function OptIntFromJson(j: Json): Result<Option<int>> {
    match j
    case JNull => Ok(None)
    case JInt(i) => Ok(Some(i))
    case _ => Err(TypeError)
  }

  const CourseKeys: set<string> := {
    "name", "class_number", "subject", "number", "group", "section",
    "schedule", "enrolled", "limit", "waiting", "enrollment_status",
    "syllabus", "instructors", "uni_reqs", "description", "notes",
    "semester", "year"}

  /** Every field name is a key. */
  lemma CourseKeysListed()
    ensures && "name" in CourseKeys && "class_number" in CourseKeys && "subject" in CourseKeys
      && "number" in CourseKeys && "group" in CourseKeys && "section" in CourseKeys
      && "schedule" in CourseKeys && "enrolled" in CourseKeys && "limit" in CourseKeys
      && "waiting" in CourseKeys && "enrollment_status" in CourseKeys
      && "syllabus" in CourseKeys && "instructors" in CourseKeys && "uni_reqs" in CourseKeys
      && "description" in CourseKeys && "notes" in CourseKeys
      && "semester" in CourseKeys && "year" in CourseKeys
  {
  }

  /** `Course.dict()`: every field under its own name, with the meetings and
      the instructors turned into dictionaries too. */
  function CourseToDict(c: Course): (r: Json)
    ensures HasCourseKeys(r)
  {
    JDict(map[
      "name" := JStr(c.name),
      "class_number" := JInt(c.classNumber),
      "subject" := JStr(c.subject),
      "number" := JInt(c.number),
      "group" := JStr(c.group),
      "section" := JStr(c.section),
      "schedule" := JList(ScheduleToJson(c.schedule)),
      "enrolled" := JInt(c.enrolled),
      "limit" := JInt(c.limit),
      "waiting" := JInt(c.waiting),
      "enrollment_status" := JStr(c.enrollmentStatus),
      "syllabus" := JStr(c.syllabus),
      "instructors" := JList(InstructorsToJson(c.instructors)),
      "uni_reqs" := JList(StringsToJson(c.uniReqs)),
      "description" := OptStrToJson(c.description),
      "notes" := OptStrToJson(c.notes),
      "semester" := OptStrToJson(c.semester),
      "year" := OptIntToJson(c.year)])
  }

  /** A dictionary whose keys are exactly the field names. */
  predicate HasCourseKeys(j: Json) {
    j.JDict? && j.fields.Keys == CourseKeys
  }

  function ListFromJson(j: Json): Result<seq<Json>> {
    if j.JList? then Ok(j.items) else Err(TypeError)
  }

  /** `Course.from_dict(d)`: `Course(**d)` needs exactly the field names as
      keys, then the meetings and instructors are rebuilt from their
      dictionaries. */
  function CourseFromDict(j: Json): (r: Result<Course>)
    ensures !HasCourseKeys(j) ==> r == Err(TypeError)
    ensures r.Err? ==> r.error == TypeError
  {
    if !j.JDict? || j.fields.Keys != CourseKeys then Err(TypeError)
    else
      var f := j.fields;
      var name :- StrFromJson(f["name"]);
      var classNumber :- IntFromJson(f["class_number"]);
      var subject :- StrFromJson(f["subject"]);
      var number :- IntFromJson(f["number"]);
      var group :- StrFromJson(f["group"]);
      var section :- StrFromJson(f["section"]);
      var scheduleItems :- ListFromJson(f["schedule"]);
      var schedule :- ScheduleFromJson(scheduleItems);
      var enrolled :- IntFromJson(f["enrolled"]);
      var limit :- IntFromJson(f["limit"]);
      var waiting :- IntFromJson(f["waiting"]);
      var status :- StrFromJson(f["enrollment_status"]);
      var syllabus :- StrFromJson(f["syllabus"]);
      var instructorItems :- ListFromJson(f["instructors"]);
      var instructors :- InstructorsFromJson(instructorItems);
      var reqItems :- ListFromJson(f["uni_reqs"]);
      var reqs :- StringsFromJson(reqItems);
      var description :- OptStrFromJson(f["description"]);
      var notes :- OptStrFromJson(f["notes"]);
      var semester :- OptStrFromJson(f["semester"]);
      var year :- OptIntFromJson(f["year"]);
      Ok(Course(name, classNumber, subject, number, group, section, schedule,
                enrolled, limit, waiting, status, syllabus, instructors, reqs,
                description, notes, semester, year))
  }

  // ---------------------------------------------------------------------
  // Round trips between a record and its dictionary form

  lemma CourseTimeRoundTrip(t: CourseTime)
    ensures CourseTimeFromDict(CourseTimeToDict(t)) == Ok(t)
  {
  }

  /** A dictionary that `CourseTime(**d)` accepts is exactly the dictionary
      of the meeting it builds. */
  lemma CourseTimeFromDictExact(j: Json, t: CourseTime)
    requires CourseTimeFromDict(j) == Ok(t)
    ensures CourseTimeToDict(t) == j
  {
    assert j.fields.Keys == CourseTimeToDict(t).fields.Keys;
  }

  lemma InstructorRoundTrip(i: Instructor)
    ensures InstructorFromDict(InstructorToDict(i)) == Ok(i)
  {
  }

  lemma InstructorFromDictExact(j: Json, i: Instructor)
    requires InstructorFromDict(j) == Ok(i)
    ensures InstructorToDict(i) == j
  {
    assert j.fields.Keys == InstructorToDict(i).fields.Keys;
  }

  lemma {:induction false} ScheduleRoundTrip(ts: seq<CourseTime>)
    ensures ScheduleFromJson(ScheduleToJson(ts)) == Ok(ts)
  {
    if ts != [] {
      assert ScheduleToJson(ts)[1..] == ScheduleToJson(ts[1..]);
      CourseTimeRoundTrip(ts[0]);
      ScheduleRoundTrip(ts[1..]);
      assert ts == [ts[0]] + ts[1..];
    }
  }

  lemma {:induction false} ScheduleFromJsonExact(js: seq<Json>, ts: seq<CourseTime>)
    requires ScheduleFromJson(js) == Ok(ts)
    ensures ScheduleToJson(ts) == js
  {
    if js != [] {
      var t := CourseTimeFromDict(js[0]).value;
      var rest := ScheduleFromJson(js[1..]).value;
      assert ts == [t] + rest;
      CourseTimeFromDictExact(js[0], t);
      ScheduleFromJsonExact(js[1..], rest);
      assert js == [js[0]] + js[1..];
    }
  }

  lemma {:induction false} InstructorsRoundTrip(xs: seq<Instructor>)
    ensures InstructorsFromJson(InstructorsToJson(xs)) == Ok(xs)
  {
    if xs != [] {
      assert InstructorsToJson(xs)[1..] == InstructorsToJson(xs[1..]);
      InstructorRoundTrip(xs[0]);
      InstructorsRoundTrip(xs[1..]);
      assert xs == [xs[0]] + xs[1..];
    }
  }

  lemma {:induction false} InstructorsFromJsonExact(js: seq<Json>, xs: seq<Instructor>)
    requires InstructorsFromJson(js) == Ok(xs)
    ensures InstructorsToJson(xs) == js
  {
    if js != [] {
      var i := InstructorFromDict(js[0]).value;
      var rest := InstructorsFromJson(js[1..]).value;
      assert xs == [i] + rest;
      InstructorFromDictExact(js[0], i);
      InstructorsFromJsonExact(js[1..], rest);
      assert js == [js[0]] + js[1..];
    }
  }

  lemma {:induction false} StringsRoundTrip(xs: seq<string>)
    ensures StringsFromJson(StringsToJson(xs)) == Ok(xs)
  {
    if xs != [] {
      assert StringsToJson(xs)[1..] == StringsToJson(xs[1..]);
      StringsRoundTrip(xs[1..]);
      assert xs == [xs[0]] + xs[1..];
    }
  }

  lemma {:induction false} StringsFromJsonExact(js: seq<Json>, xs: seq<string>)
    requires StringsFromJson(js) == Ok(xs)
    ensures StringsToJson(xs) == js
  {
    if js != [] {
      var rest := StringsFromJson(js[1..]).value;
      assert xs == [js[0].s] + rest;
      StringsFromJsonExact(js[1..], rest);
      assert js == [js[0]] + js[1..];
    }
  }

  lemma CourseDictKeys(c: Course)
    ensures CourseToDict(c).fields.Keys == CourseKeys
  {
  }

  lemma CourseDictScalars(c: Course)
    ensures var f := CourseToDict(c).fields;
      && f["name"] == JStr(c.name)
      && f["class_number"] == JInt(c.classNumber)
      && f["subject"] == JStr(c.subject)
      && f["number"] == JInt(c.number)
      && f["group"] == JStr(c.group)
      && f["section"] == JStr(c.section)
  {
  }

  lemma CourseDictEnrollment(c: Course)
    ensures var f := CourseToDict(c).fields;
      && f["schedule"] == JList(ScheduleToJson(c.schedule))
      && f["enrolled"] == JInt(c.enrolled)
      && f["limit"] == JInt(c.limit)
      && f["waiting"] == JInt(c.waiting)
      && f["enrollment_status"] == JStr(c.enrollmentStatus)
      && f["syllabus"] == JStr(c.syllabus)
  {
  }

  lemma CourseDictExtras(c: Course)
    ensures var f := CourseToDict(c).fields;
      && f["instructors"] == JList(InstructorsToJson(c.instructors))
      && f["uni_reqs"] == JList(StringsToJson(c.uniReqs))
      && f["description"] == OptStrToJson(c.description)
      && f["notes"] == OptStrToJson(c.notes)
      && f["semester"] == OptStrToJson(c.semester)
      && f["year"] == OptIntToJson(c.year)
  {
  }

  /** The fields of a dictionary, each in the form `dict()` gives it. */
  predicate HoldsCourse(f: map<string, Json>, c: Course) {
    && f.Keys == CourseKeys
    && f["name"] == JStr(c.name)
    && f["class_number"] == JInt(c.classNumber)
    && f["subject"] == JStr(c.subject)
    && f["number"] == JInt(c.number)
    && f["group"] == JStr(c.group)
    && f["section"] == JStr(c.section)
    && f["schedule"] == JList(ScheduleToJson(c.schedule))
    && f["enrolled"] == JInt(c.enrolled)
    && f["limit"] == JInt(c.limit)
    && f["waiting"] == JInt(c.waiting)
    && f["enrollment_status"] == JStr(c.enrollmentStatus)
    && f["syllabus"] == JStr(c.syllabus)
    && f["instructors"] == JList(InstructorsToJson(c.instructors))
    && f["uni_reqs"] == JList(StringsToJson(c.uniReqs))
    && f["description"] == OptStrToJson(c.description)
    && f["notes"] == OptStrToJson(c.notes)
    && f["semester"] == OptStrToJson(c.semester)
    && f["year"] == OptIntToJson(c.year)
  }

  /** The three list fields of a held course read back as its lists. */
  lemma HeldLists(f: map<string, Json>, c: Course)
    requires HoldsCourse(f, c)
    ensures ListFromJson(f["schedule"]).Ok?
      && ScheduleFromJson(ListFromJson(f["schedule"]).value) == Ok(c.schedule)
    ensures ListFromJson(f["instructors"]).Ok?
      && InstructorsFromJson(ListFromJson(f["instructors"]).value) == Ok(c.instructors)
    ensures ListFromJson(f["uni_reqs"]).Ok?
      && StringsFromJson(ListFromJson(f["uni_reqs"]).value) == Ok(c.uniReqs)
  {
    CourseKeysListed();
    ScheduleRoundTrip(c.schedule);
    InstructorsRoundTrip(c.instructors);
    StringsRoundTrip(c.uniReqs);
  }

  /** The four optional fields of a held course read back as its options. */
  lemma HeldOptionals(f: map<string, Json>, c: Course)
    requires HoldsCourse(f, c)
    ensures OptStrFromJson(f["description"]) == Ok(c.description)
    ensures OptStrFromJson(f["notes"]) == Ok(c.notes)
    ensures OptStrFromJson(f["semester"]) == Ok(c.semester)
    ensures OptIntFromJson(f["year"]) == Ok(c.year)
  {
    CourseKeysListed();
  }

  lemma FromHeldCourse(f: map<string, Json>, c: Course)
    requires HoldsCourse(f, c)
    ensures CourseFromDict(JDict(f)) == Ok(c)
  {
    CourseKeysListed();
    HeldLists(f, c);
    HeldOptionals(f, c);
  }

  /** `from_dict(dict(c))` gives back `c`. */
  lemma CourseRoundTrip(c: Course)
    ensures CourseFromDict(CourseToDict(c)) == Ok(c)
  {
    CourseDictKeys(c);
    CourseDictScalars(c);
    CourseDictEnrollment(c);
    CourseDictExtras(c);
    FromHeldCourse(CourseToDict(c).fields, c);
  }

  lemma FromDictHolds(j: Json, c: Course)
    requires CourseFromDict(j) == Ok(c)
    ensures j.JDict? && HoldsCourse(j.fields, c)
  {
    var f := j.fields;
    ScheduleFromJsonExact(f["schedule"].items, c.schedule);
    InstructorsFromJsonExact(f["instructors"].items, c.instructors);
    StringsFromJsonExact(f["uni_reqs"].items, c.uniReqs);
  }

  /** Two dictionaries holding the same course are equal. */
  lemma HoldsCourseUnique(f: map<string, Json>, g: map<string, Json>, c: Course)
    requires HoldsCourse(f, c) && HoldsCourse(g, c)
    ensures f == g
  {
    forall k | k in CourseKeys ensures f[k] == g[k] {
    }
  }

  /** Conversely, a dictionary that `from_dict` accepts is exactly the
      dictionary of the course it builds: no key is dropped or added. */
  lemma CourseFromDictExact(j: Json, c: Course)
    requires CourseFromDict(j) == Ok(c)
    ensures CourseToDict(c) == j
  {
    FromDictHolds(j, c);
    CourseDictKeys(c);
    CourseDictScalars(c);
    CourseDictEnrollment(c);
    CourseDictExtras(c);
    HoldsCourseUnique(CourseToDict(c).fields, j.fields, c);
  }
}

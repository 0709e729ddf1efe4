/** A course row and a schedule page: which rows are courses, how a row's
    six leading cells become a `Course`, and how a page becomes the list of
    its courses; also the registrar's term code. */
module Page {
  import opened Wrappers
  import opened Strings
  import opened Markup
  import opened Records
  import opened Fields
  import opened Schedule

  /** The cells of a row: its direct `td` children. */
  function RowCells(tr: Element): seq<Element> {
    FilterTags(tr.children, "td")
  }

  /** The table's header row names its first three columns. */
  predicate IsHeaderRow(tds: seq<Element>)
    requires |tds| >= 3
  {
    Contains(TextOf(tds[0]), "Class #")
    && Contains(TextOf(tds[1]), "Course #")
    && Contains(TextOf(tds[2]), "Course Title")
  }

  /** `tr_is_course(tr)`: the row's cells when it has at least six and is
      not the header row, otherwise the empty list. */
  function TrIsCourse(tr: Element): (r: seq<Element>)
    ensures r == [] || r == RowCells(tr)
  {
    var tds := RowCells(tr);
    if |tds| < 6 || IsHeaderRow(tds) then [] else tds
  }

  /** A row is a course row exactly when it has six or more cells and is not
      the header. */
  lemma CourseRowIff(tr: Element)
    ensures TrIsCourse(tr) != [] <==> |RowCells(tr)| >= 6 && !IsHeaderRow(RowCells(tr))
    ensures TrIsCourse(tr) != [] ==> |TrIsCourse(tr)| >= 6
  {
  }

  /** `title_reqs.find("strong").text.strip()`: the course name, or
      `AttributeError` when the cell holds no `strong`. */
  function CourseName(titleReqs: Element): (r: Result<string>)
    ensures r.Err? <==> Find(titleReqs, "strong").None?
    ensures r.Err? ==> r.error == AttributeError
    ensures r.Ok? ==> r.value == Strip(TextOf(Find(titleReqs, "strong").value))
  {
    match Find(titleReqs, "strong")
    case None => Err(AttributeError)
    case Some(strong) => Ok(Strip(TextOf(strong)))
  }

  /** `tr_to_course(tr, request_description=False)`. A row that is not a
      course gives `None`; otherwise its cells become a course. */
  function TrToCourse(tr: Element): (r: Result<Option<Course>>)
    ensures r == Ok(None) <==> TrIsCourse(tr) == []
    ensures r.Ok? && TrIsCourse(tr) != [] ==> r.value.Some?
    ensures TrIsCourse(tr) != [] ==> r == (var c := CourseOfCells(TrIsCourse(tr));
      if c.Ok? then Ok(Some(c.value)) else Err(c.error))
  {
    var tds := TrIsCourse(tr);
    if tds == [] then Ok(None)
    else
      var c :- CourseOfCells(tds);
      Ok(Some(c))
  }

  /** The six leading cells of a course row as a course. The extractors run
      in the source's order (display number, name, requirements, enrollment
      figures, instructors, class number, schedule, status, syllabus,
      notes) and the first one that raises is the row's error. */
  function CourseOfCells(tds: seq<Element>): (r: Result<Course>)
    requires |tds| >= 6
    ensures r.Ok? ==> r.value.description.None? && r.value.semester.None? && r.value.year.None?
  {
    var classNumber, courseId, titleReqs, timeLocation, enrollment, instructor :=
      tds[0], tds[1], tds[2], tds[3], tds[4], tds[5];
    var ids :- CourseIds(courseId);
    var name :- CourseName(titleReqs);
    var reqs := UniReqs(titleReqs);
    var figures :- EnrollmentInfo(enrollment);
    var instructors :- InstructorInfo(instructor);
    var number :- ParseInt(TextOf(classNumber));
    var schedule := ParseTimesOf(timeLocation.children);
    var status :- EnrollmentStatus(enrollment);
    var syllabus :- Syllabus(courseId);
    var notes := NotesOf(titleReqs);
    Ok(Course(
      name := name,
      classNumber := number,
      subject := ids.subject,
      number := ids.number,
      group := ids.group,
      section := ids.section,
      schedule := schedule,
      enrolled := figures.enrolled,
      limit := figures.limit,
      waiting := figures.waiting,
      enrollmentStatus := status,
      syllabus := syllabus,
      instructors := instructors,
      uniReqs := reqs,
      description := None,
      notes := notes,
      semester := None,
      year := None))
  }

  /** The extractor that fails first, in the order `tr_to_course` calls
      them, or `None` when every one succeeds. */
  function FirstFailure(tds: seq<Element>): Option<Error>
    requires |tds| >= 6
  {
    if CourseIds(tds[1]).Err? then Some(CourseIds(tds[1]).error)
    else if CourseName(tds[2]).Err? then Some(CourseName(tds[2]).error)
    else if EnrollmentInfo(tds[4]).Err? then Some(EnrollmentInfo(tds[4]).error)
    else if InstructorInfo(tds[5]).Err? then Some(InstructorInfo(tds[5]).error)
    else if ParseInt(TextOf(tds[0])).Err? then Some(ParseInt(TextOf(tds[0])).error)
    else if EnrollmentStatus(tds[4]).Err? then Some(EnrollmentStatus(tds[4]).error)
    else if Syllabus(tds[1]).Err? then Some(Syllabus(tds[1]).error)
    else None
  }

  /** A course row fails exactly when one of its extractors raises, and
      then with the error of the first one to raise. */
  lemma CellsError(tds: seq<Element>)
    requires |tds| >= 6
    ensures CourseOfCells(tds).Err? <==> FirstFailure(tds).Some?
    ensures CourseOfCells(tds).Err? ==> CourseOfCells(tds).error == FirstFailure(tds).value
  {
    if CourseIds(tds[1]).Err? {
    } else if CourseName(tds[2]).Err? {
    } else if EnrollmentInfo(tds[4]).Err? {
    } else if InstructorInfo(tds[5]).Err? {
    } else if ParseInt(TextOf(tds[0])).Err? {
    } else if EnrollmentStatus(tds[4]).Err? {
    } else if Syllabus(tds[1]).Err? {
    } else {
      assert CourseOfCells(tds).Ok?;
    }
  }

  /** Each field of a row's course comes from its own column: the class
      number from the first cell, the display number and syllabus from the
      second, name, requirements and notes from the third, the schedule
      from the fourth, the enrollment from the fifth and the instructors
      from the sixth. Description, semester and year are left unset. */
  lemma CellsFields(tds: seq<Element>)
    requires |tds| >= 6 && CourseOfCells(tds).Ok?
    ensures var c := CourseOfCells(tds).value;
      Ok(c.classNumber) == ParseInt(TextOf(tds[0]))
      && Ok(Ids(c.subject, c.number, c.group, c.section)) == CourseIds(tds[1])
      && Ok(c.syllabus) == Syllabus(tds[1])
      && Ok(c.name) == CourseName(tds[2])
      && c.uniReqs == UniReqs(tds[2])
      && c.notes == NotesOf(tds[2])
      && c.schedule == ParseTimesOf(tds[3].children)
      && Ok(Enrollment(c.enrolled, c.limit, c.waiting)) == EnrollmentInfo(tds[4])
      && Ok(c.enrollmentStatus) == EnrollmentStatus(tds[4])
      && Ok(c.instructors) == InstructorInfo(tds[5])
      && c.description.None? && c.semester.None? && c.year.None?
  {
    CellsError(tds);
    var ids, name, figures := CourseIds(tds[1]).value, CourseName(tds[2]).value, EnrollmentInfo(tds[4]).value;
    var instructors, number := InstructorInfo(tds[5]).value, ParseInt(TextOf(tds[0])).value;
    var status, syllabus := EnrollmentStatus(tds[4]).value, Syllabus(tds[1]).value;
    assert CourseOfCells(tds).value == Course(
      name, number, ids.subject, ids.number, ids.group, ids.section,
      ParseTimesOf(tds[3].children), figures.enrolled, figures.limit, figures.waiting,
      status, syllabus, instructors, UniReqs(tds[2]), None, NotesOf(tds[2]), None, None);
  }

  /** What the model promises about every course a row yields: one meeting
      per rule in the time cell plus one, trimmed requirement labels, and
      a status with single spaces. */
  lemma CellsCourseShape(tds: seq<Element>)
    requires |tds| >= 6 && CourseOfCells(tds).Ok?
    ensures var c := CourseOfCells(tds).value;
      |c.schedule| == |FilterTags(tds[3].children, "hr")| + 1
      && |c.uniReqs| == |RequirementSpans(tds[2])|
      && Collapsed(c.enrollmentStatus)
      && (forall k :: 0 <= k < |c.instructors| ==> IsHexWord(c.instructors[k].id))
  {
    CellsFields(tds);
    var c := CourseOfCells(tds).value;
    MeetingCount(tds[3].children);
    var links := FindAll(tds[5], "a");
    forall k | 0 <= k < |c.instructors| ensures IsHexWord(c.instructors[k].id) {
      InstructorsOfAt(links, k);
    }
  }

  // ---------------------------------------------------------------------
  // page_to_courses

  /** `<table id="classes-list">`. */
  predicate IsClassesList(n: Node) {
    n.Tag? && n.name == "table" && "id" in n.attrs && n.attrs["id"] == "classes-list"
  }

  /** The first node of `ns` that is the classes table. */
  function FirstClassesList(ns: seq<Node>): (r: Option<nat>)
    ensures r.Some? ==> (r.value < |ns| && IsClassesList(ns[r.value])
      && forall j :: 0 <= j < r.value ==> !IsClassesList(ns[j]))
    ensures r.None? ==> forall j :: 0 <= j < |ns| ==> !IsClassesList(ns[j])
  {
    if ns == [] then None
    else if IsClassesList(ns[0]) then Some(0)
    else match FirstClassesList(ns[1..])
      case None => None
      case Some(k) => Some(k + 1)
  }

  /** `soup.find("table", id="classes-list")`, falling back to the whole
      document when the page has no such table. */
  function ClassesTable(soup: Element): (r: Element)
    ensures r == soup || IsClassesList(r)
  {
    var ns := Descendants(soup.children);
    match FirstClassesList(ns)
    case None => soup
    case Some(k) => ns[k]
  }

  /** Courses of the rows in order: a row that is not a course is dropped,
      and the first row that raises aborts the page. */
  function RowsToCourses(trs: seq<Element>): (r: Result<seq<Course>>)
    ensures r.Ok? <==> forall k :: 0 <= k < |trs| ==> TrToCourse(trs[k]).Ok?
    ensures r.Ok? ==> |r.value| <= |trs|
  {
    if trs == [] then Ok([])
    else
      var first :- TrToCourse(trs[0]);
      var rest :- RowsToCourses(trs[1..]);
      match first
      case None => Ok(rest)
      case Some(c) => Ok([c] + rest)
  }

  /** `page_to_courses(html, request_description=False)` on the parsed
      document: the course rows that are direct children of the table. */
  function PageToCourses(soup: Element): (r: Result<seq<Course>>)
    ensures r.Ok? <==> forall tr :: tr in Rows(soup) ==> TrToCourse(tr).Ok?
    ensures r.Ok? ==> |r.value| <= |Rows(soup)|
  {
    RowsToCourses(Rows(soup))
  }

  /** The rows of the classes table. */
  function Rows(soup: Element): seq<Element> {
    FilterTags(ClassesTable(soup).children, "tr")
  }

  /** The course rows among `trs`, in order. */
  function CourseRows(trs: seq<Element>): (r: seq<Element>)
    ensures |r| <= |trs|
  {
    if trs == [] then []
    else if TrIsCourse(trs[0]) == [] then CourseRows(trs[1..])
    else [trs[0]] + CourseRows(trs[1..])
  }

  /** When the page succeeds, its courses are those of the course rows,
      one each and in row order; nothing else is dropped. */
  lemma {:induction false} RowsKept(trs: seq<Element>)
    requires RowsToCourses(trs).Ok?
    ensures |RowsToCourses(trs).value| == |CourseRows(trs)|
    ensures forall k :: 0 <= k < |CourseRows(trs)| ==>
      TrToCourse(CourseRows(trs)[k]) == Ok(Some(RowsToCourses(trs).value[k]))
    decreases |trs|
  {
    if trs != [] {
      RowsKept(trs[1..]);
      var rest := RowsToCourses(trs[1..]).value;
      if TrIsCourse(trs[0]) != [] {
        var c := TrToCourse(trs[0]).value.value;
        var rows := CourseRows(trs[1..]);
        assert RowsToCourses(trs).value == [c] + rest;
        assert CourseRows(trs) == [trs[0]] + rows;
        PairwiseCons((tr: Element, d: Course) => TrToCourse(tr) == Ok(Some(d)), trs[0], rows, c, rest);
      } else {
        assert RowsToCourses(trs).value == rest;
        assert CourseRows(trs) == CourseRows(trs[1..]);
      }
    }
  }

  /** A relation that holds pairwise along two lists and between two new
      heads holds pairwise along the lists with those heads. Stated
      generically so that the rows' extractors stay out of the proof. */
  lemma PairwiseCons<A, B>(p: (A, B) -> bool, x: A, xs: seq<A>, y: B, ys: seq<B>)
    requires |xs| == |ys| && p(x, y)
    requires forall k :: 0 <= k < |xs| ==> p(xs[k], ys[k])
    ensures forall k :: 0 <= k < |[x] + xs| ==> p(([x] + xs)[k], ([y] + ys)[k])
  {
    forall k | 0 <= k < |[x] + xs| ensures p(([x] + xs)[k], ([y] + ys)[k]) {
      if k > 0 {
        assert ([x] + xs)[k] == xs[k - 1] && ([y] + ys)[k] == ys[k - 1];
      }
    }
  }

  // ---------------------------------------------------------------------
  // strm

  const Semesters: seq<string> := ["Spring", "Summer", "Fall"]

  /** `list.index`: the first position of `x`, or `ValueError`. */
  function IndexOf(xs: seq<string>, x: string): (r: Result<nat>)
    ensures r.Ok? ==> (r.value < |xs| && xs[r.value] == x
      && forall j :: 0 <= j < r.value ==> xs[j] != x)
    ensures r.Err? <==> x !in xs
    ensures r.Err? ==> r.error == ValueError
  {
    if xs == [] then Err(ValueError)
    else if xs[0] == x then Ok(0)
    else
      var k :- IndexOf(xs[1..], x);
      Ok(k + 1)
  }

  /** `strm(year, semester)`: the registrar's four-digit term code, one
      thousand plus ten times the year within its century plus the
      semester's position counted from one. */
  function Strm(year: int, semester: string): (r: Result<int>)
    ensures r.Err? <==> semester !in Semesters
    ensures r.Err? ==> r.error == ValueError
    ensures r.Ok? ==> 1001 <= r.value <= 1993 && r.value % 10 in {1, 2, 3}
  {
    var k :- IndexOf(Semesters, semester);
    Ok(1000 + 10 * (year % 100) + k + 1)
  }

  /** The code determines the year within its century and the semester:
      two terms share a code exactly when they agree on both. */
  lemma StrmInjective(y1: int, s1: string, y2: int, s2: string)
    requires Strm(y1, s1).Ok? && Strm(y2, s2).Ok?
    ensures Strm(y1, s1) == Strm(y2, s2) <==> y1 % 100 == y2 % 100 && s1 == s2
  {
    var k1, k2 := IndexOf(Semesters, s1).value, IndexOf(Semesters, s2).value;
    if Strm(y1, s1) == Strm(y2, s2) {
      var r := Strm(y1, s1).value - 1000;
      assert r == 10 * (y1 % 100) + k1 + 1 == 10 * (y2 % 100) + k2 + 1;
      assert k1 == k2 && y1 % 100 == y2 % 100;
    }
  }

  /** A code read back: the semester and the year within its century. */
  lemma StrmDecode(year: int, semester: string)
    requires Strm(year, semester).Ok?
    ensures var c := Strm(year, semester).value - 1000;
      c / 10 == year % 100 && Semesters[c % 10 - 1] == semester
  {
  }

  /** Fall 2018 is term 1183. */
  lemma StrmExample()
    ensures Strm(2018, "Fall") == Ok(1183)
  {
    assert IndexOf(Semesters, "Fall") == Ok(2);
  }
}

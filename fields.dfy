/** The per-cell extractors of a course row: the multi-line text joiner,
    the syllabus link, the display-number parts, the requirement list, the
    notes under the title, the enrollment figures and status, and the
    instructor links. Each takes one cell (an `Element`) and returns what
    the row's `Course` stores, or the exception the source lets escape. */
module Fields {
  import opened Wrappers
  import opened Strings
  import opened Markup
  import opened Records

  // ---------------------------------------------------------------------
  // multiline_text

  /** What one node contributes to `multiline_text`: a text node stripped,
      a `br` a line break, any other tag its markup. */
  function Piece(n: Node): string {
    match n
    case Text(s) => Strip(s)
    case Tag(name, _, _) => if name == "br" then "\n" else Render(n)
  }

  function Pieces(els: seq<Node>): (ps: seq<string>)
    ensures |ps| == |els|
    decreases |els|
  {
    if els == [] then [] else Pieces(els[..|els| - 1]) + [Piece(els[|els| - 1])]
  }

  lemma PiecesSnoc(els: seq<Node>, k: nat)
    requires k < |els|
    ensures Pieces(els[..k + 1]) == Pieces(els[..k]) + [Piece(els[k])]
  {
    assert els[..k + 1][..k] == els[..k];
  }

  lemma {:induction false} PiecesAt(els: seq<Node>, k: nat)
    requires k < |els|
    ensures Pieces(els)[k] == Piece(els[k])
    decreases |els|
  {
    if k < |els| - 1 {
      var init := els[..|els| - 1];
      PiecesAt(init, k);
      assert Pieces(els)[k] == Pieces(init)[k];
    }
  }

  /** `"".join(ps)`. */
  function Concat(ps: seq<string>): string
    decreases |ps|
  {
    if ps == [] then "" else Concat(ps[..|ps| - 1]) + ps[|ps| - 1]
  }

  /** What `multiline_text(els)` returns. */
  function MultilineOf(els: seq<Node>): string {
    Strip(Concat(Pieces(els)))
  }

  /** `multiline_text(els)`: the pieces are collected in a list, then
      joined and stripped. */
  method MultilineText(els: seq<Node>) returns (r: string)
    ensures r == MultilineOf(els)
  {
    var ret: seq<string> := [];
    for k := 0 to |els|
      invariant ret == Pieces(els[..k])
    {
      var tok := els[k];
      var piece;
      if tok.Text? {
        piece := Strip(tok.s);
      } else if tok.name == "br" {
        piece := "\n";
      } else {
        piece := Render(tok);
      }
      assert piece == Piece(tok);
      PiecesSnoc(els, k);
      ret := ret + [piece];
    }
    assert els[..|els|] == els;
    r := Strip(Concat(ret));
  }

  /** A node that contributes nothing visible: blank text or a `br`. */
  predicate IsBlankNode(n: Node) {
    (n.Text? && AllSpace(n.s)) || IsTag(n, Some("br"))
  }

  lemma {:induction false} AllSpaceConcat(ps: seq<string>)
    ensures AllSpace(Concat(ps)) <==> forall k :: 0 <= k < |ps| ==> AllSpace(ps[k])
    decreases |ps|
  {
    if ps != [] {
      var init := ps[..|ps| - 1];
      AllSpaceConcat(init);
      var a := Concat(init);
      var b := ps[|ps| - 1];
      assert Concat(ps) == a + b;
      assert AllSpace(a + b) <==> AllSpace(a) && AllSpace(b) by {
        if AllSpace(a) && AllSpace(b) {
          forall i | 0 <= i < |a + b| ensures IsSpace((a + b)[i]) {
            if i < |a| {
              assert (a + b)[i] == a[i];
            } else {
              assert (a + b)[i] == b[i - |a|];
            }
          }
        }
        if AllSpace(a + b) {
          forall i | 0 <= i < |a| ensures IsSpace(a[i]) {
            assert (a + b)[i] == a[i];
          }
          forall i | 0 <= i < |b| ensures IsSpace(b[i]) {
            assert (a + b)[|a| + i] == b[i];
          }
        }
      }
      forall k | 0 <= k < |init| ensures init[k] == ps[k] {
      }
    }
  }

  lemma PieceBlank(n: Node)
    ensures AllSpace(Piece(n)) <==> IsBlankNode(n)
  {
    if n.Text? {
      StripSpec(n.s);
    } else if n.name != "br" {
      assert Piece(n)[0] == '<';
    }
  }

  /** `multiline_text` gives "" exactly when every node is blank text or
      a `br`: the markup of any other tag always shows. */
  lemma MultilineBlank(els: seq<Node>)
    ensures MultilineOf(els) == [] <==> forall k :: 0 <= k < |els| ==> IsBlankNode(els[k])
  {
    var ps := Pieces(els);
    AllSpaceConcat(ps);
    StripSpec(Concat(ps));
    forall k | 0 <= k < |els| ensures AllSpace(ps[k]) <==> IsBlankNode(els[k]) {
      PieceBlank(els[k]);
      PiecesAt(els, k);
    }
  }

  // ---------------------------------------------------------------------
  // syllabus

  predicate IsSyllabusLink(a: Element) {
    Contains(TextOf(a), "Syllabus")
  }

  /** The index of the first link whose text mentions "Syllabus". */
  function FirstSyllabusLink(links: seq<Element>): (r: Option<nat>)
    ensures r.Some? ==> r.value < |links| && IsSyllabusLink(links[r.value])
    ensures r.Some? ==> forall j :: 0 <= j < r.value ==> !IsSyllabusLink(links[j])
    ensures r.None? <==> forall j :: 0 <= j < |links| ==> !IsSyllabusLink(links[j])
    decreases |links|
  {
    if links == [] then None
    else if IsSyllabusLink(links[0]) then Some(0)
    else
      match FirstSyllabusLink(links[1..])
      case None => None
      case Some(j) => Some(j + 1)
  }

  /** `syllabus(td)`: the `href` of the first link in the cell whose text
      mentions "Syllabus"; `Unreachable` when there is none, `KeyError`
      when that link has no `href`. */
  function Syllabus(td: Element): (r: Result<string>)
    ensures r == Err(Unreachable) <==>
      forall j :: 0 <= j < |FindAll(td, "a")| ==> !IsSyllabusLink(FindAll(td, "a")[j])
    ensures r.Ok? ==> exists j :: (
      && 0 <= j < |FindAll(td, "a")|
      && IsSyllabusLink(FindAll(td, "a")[j])
      && (forall i :: 0 <= i < j ==> !IsSyllabusLink(FindAll(td, "a")[i]))
      && "href" in FindAll(td, "a")[j].attrs
      && r.value == FindAll(td, "a")[j].attrs["href"])
    ensures r.Err? ==> r.error == Unreachable || r.error == KeyError
    ensures FirstSyllabusLink(FindAll(td, "a")).Some? ==>
      (r.Ok? <==> "href" in FindAll(td, "a")[FirstSyllabusLink(FindAll(td, "a")).value].attrs)
  {
    var links := FindAll(td, "a");
    match FirstSyllabusLink(links)
    case None => Err(Unreachable)
    case Some(j) => GetAttr(links[j], "href")
  }

  // ---------------------------------------------------------------------
  // course_ids

  /** The leading run of ASCII digits: group 1 of `(\d+)([^0-9]*)` when it
      is non-empty. */
  function DigitRun(s: string): (r: string)
    ensures r <= s && AllDigits(r)
    ensures |r| == |s| || !IsDigit(s[|r|])
  {
    if s == [] || !IsDigit(s[0]) then [] else [s[0]] + DigitRun(s[1..])
  }

  /** The leading run of non-digits: group 2 of the same pattern. */
  function NonDigitRun(s: string): (r: string)
    ensures r <= s && (forall i :: 0 <= i < |r| ==> !IsDigit(r[i]))
    ensures |r| == |s| || IsDigit(s[|r|])
  {
    if s == [] || IsDigit(s[0]) then [] else [s[0]] + NonDigitRun(s[1..])
  }

  /** The parts of the display number in the course-id cell. */
  datatype Ids = Ids(subject: string, number: int, group: string, section: string)

  /** `course_ids` on the words of the cell's text: the first three words
      are the subject, the number-and-group and the section; fewer than
      three raise `ValueError`, and a second word that does not start with a
      digit makes the match fail (`AttributeError`). */
  function IdsOfWords(ws: seq<string>): (r: Result<Ids>)
    ensures r.Ok? <==> |ws| >= 3 && ws[1] != [] && IsDigit(ws[1][0])
    ensures |ws| < 3 ==> r == Err(ValueError)
    ensures r.Err? ==> r.error == ValueError || r.error == AttributeError
    ensures r.Ok? ==>
      && r.value.subject == ws[0] && r.value.section == ws[2]
      && IsGroupOf(ws[1], r.value.group)
      && r.value.number == DigitsValue(DigitRun(ws[1]))
  {
    if |ws| < 3 then Err(ValueError)
    else
      var d := DigitRun(ws[1]);
      if d == [] then Err(AttributeError)
      else
        GroupOfRest(ws[1]);
        Ok(Ids(ws[0], DigitsValue(d), NonDigitRun(ws[1][|d|..]), ws[2]))
  }

  /** `g` is what `([^0-9]*)` captures in `w` after the digit run: it
      follows the run, holds no digit, and ends the word or is followed by
      a digit, so it is the longest such run. */
  predicate IsGroupOf(w: string, g: string) {
    var d := DigitRun(w);
    && d + g <= w
    && (forall i :: 0 <= i < |g| ==> !IsDigit(g[i]))
    && (|d| + |g| == |w| || IsDigit(w[|d| + |g|]))
  }

  /** The run without digits after the digit run is the group. */
  lemma GroupOfRest(w: string)
    ensures IsGroupOf(w, NonDigitRun(w[|DigitRun(w)|..]))
  {
    var d := DigitRun(w);
    var rest := w[|d|..];
    var g := NonDigitRun(rest);
    assert w == d + rest;
    assert d + g <= w;
    if |d| + |g| < |w| {
      assert w[|d| + |g|] == rest[|g|];
    }
  }

  /** The display number's group is never anything but its maximal run:
      a group that is a proper prefix of the run cannot be read back. */
  lemma GroupIsMaximal(w: string, g: string, h: string)
    requires IsGroupOf(w, g) && IsGroupOf(w, h)
    ensures g == h
  {
    var d := DigitRun(w);
    if |g| != |h| {
      assert false;
    } else {
      assert g == (d + g)[|d|..] && h == (d + h)[|d|..];
      assert (d + g) == w[..|d| + |g|] == (d + h);
    }
  }

  /** `course_ids(td)`. */
  function CourseIds(td: Element): (r: Result<Ids>)
    ensures r.Ok? <==>
      |Split(TextOf(td))| >= 3 && Split(TextOf(td))[1] != [] && IsDigit(Split(TextOf(td))[1][0])
    ensures r.Err? ==> r.error == ValueError || r.error == AttributeError
    ensures r.Ok? ==>
      && r.value.subject == Split(TextOf(td))[0] && r.value.section == Split(TextOf(td))[2]
      && r.value.number == DigitsValue(DigitRun(Split(TextOf(td))[1]))
      && IsGroupOf(Split(TextOf(td))[1], r.value.group)
  {
    IdsOfWords(Split(TextOf(td)))
  }

  /** Reading the display number back: a cell whose words are the subject,
      the number followed by a group without digits, and the section gives
      exactly those parts. */
  lemma IdsOfDisplay(ws: seq<string>, subject: string, number: nat, group: string, section: string)
    requires |ws| >= 3 && ws[0] == subject && ws[2] == section
    requires ws[1] == IntToString(number) + group
    requires group == [] || !IsDigit(group[0])
    requires forall i :: 0 <= i < |group| ==> !IsDigit(group[i])
    ensures IdsOfWords(ws) == Ok(Ids(subject, number, group, section))
  {
    var d := NatToDecimal(number);
    DigitRunOf(d, group);
    assert ws[1][|d|..] == group;
    NonDigitRunOf(group);
  }

  lemma {:induction false} DigitRunOf(d: string, rest: string)
    requires AllDigits(d)
    requires rest == [] || !IsDigit(rest[0])
    ensures DigitRun(d + rest) == d
    decreases |d|
  {
    if d != [] {
      assert (d + rest)[1..] == d[1..] + rest;
      DigitRunOf(d[1..], rest);
    } else {
      assert d + rest == rest;
    }
  }

  lemma {:induction false} NonDigitRunOf(g: string)
    requires forall i :: 0 <= i < |g| ==> !IsDigit(g[i])
    ensures NonDigitRun(g) == g
    decreases |g|
  {
    if g != [] {
      NonDigitRunOf(g[1..]);
    }
  }

  // ---------------------------------------------------------------------
  // uni_reqs

  /** The tags among `xs` whose class list includes `c`, in order. */
  function WithClass(xs: seq<Element>, c: string): (r: seq<Element>)
    ensures |r| <= |xs|
    ensures forall k :: 0 <= k < |r| ==> r[k] in xs && HasClass(r[k], c)
    ensures forall x :: x in xs && HasClass(x, c) ==> x in r
    decreases |xs|
  {
    if xs == [] then []
    else (if HasClass(xs[0], c) then [xs[0]] else []) + WithClass(xs[1..], c)
  }

  /** Selecting by class distributes over concatenation, so the spans keep
      their document order and their repeats. */
  lemma {:induction false} WithClassAppend(a: seq<Element>, b: seq<Element>, c: string)
    ensures WithClass(a + b, c) == WithClass(a, c) + WithClass(b, c)
    decreases |a|
  {
    if a == [] {
      assert a + b == b;
    } else {
      assert (a + b)[1..] == a[1..] + b;
      WithClassAppend(a[1..], b, c);
    }
  }

  /** One element is kept exactly when it carries the class. */
  lemma WithClassOne(x: Element, c: string)
    ensures WithClass([x], c) == if HasClass(x, c) then [x] else []
  {
    assert [x][1..] == [];
  }

  /** `find_all("span", {"class": "requirement"})`. */
  function RequirementSpans(td: Element): seq<Element> {
    WithClass(FindAll(td, "span"), "requirement")
  }

  /** `uni_reqs(td)`: the stripped text of each requirement span, in
      document order; a requirement never has surrounding whitespace. */
  function UniReqs(td: Element): (r: seq<string>)
    ensures |r| == |RequirementSpans(td)|
  {
    var spans := RequirementSpans(td);
    seq(|spans|, k requires 0 <= k < |spans| => Strip(TextOf(spans[k])))
  }

  /** Each requirement is the stripped text of its span, so it never has
      surrounding whitespace; blank spans give "". */
  lemma UniReqsTrimmed(td: Element, k: nat)
    requires k < |UniReqs(td)|
    ensures UniReqs(td)[k] == Strip(TextOf(RequirementSpans(td)[k]))
    ensures UniReqs(td)[k] == [] <==> AllSpace(TextOf(RequirementSpans(td)[k]))
    ensures var q := UniReqs(td)[k]; q == [] || (!IsSpace(q[0]) && !IsSpace(q[|q| - 1]))
  {
    StripSpec(TextOf(RequirementSpans(td)[k]));
  }

  // ---------------------------------------------------------------------
  // course_notes

  /** The child that ends the search in `course_notes`: a "]" text node
      when the cell lists requirements, otherwise a `strong` tag. */
  predicate IsMarker(n: Node, hasReqs: bool) {
    if hasReqs then IsCloseBracket(n) else IsStrongTag(n)
  }

  /** A text node that is "]" once stripped. */
  predicate IsCloseBracket(n: Node) {
    n.Text? && Strip(n.s) == "]"
  }

  predicate IsStrongTag(n: Node) {
    n.Tag? && n.name == "strong"
  }

  /** The index of the first marker among the children. */
  function FirstMarker(cs: seq<Node>, hasReqs: bool): (r: Option<nat>)
    ensures r.Some? ==> r.value < |cs| && IsMarker(cs[r.value], hasReqs)
    ensures r.None? <==> forall j :: 0 <= j < |cs| ==> !IsMarker(cs[j], hasReqs)
    decreases |cs|
  {
    if cs == [] then None
    else if IsMarker(cs[0], hasReqs) then Some(0)
    else
      match FirstMarker(cs[1..], hasReqs)
      case None => None
      case Some(j) => Some(j + 1)
  }

  /** No child before the one `FirstMarker` picks is a marker. */
  lemma {:induction false} FirstMarkerIsFirst(cs: seq<Node>, hasReqs: bool, j: nat)
    requires FirstMarker(cs, hasReqs).Some? && j < FirstMarker(cs, hasReqs).value
    ensures !IsMarker(cs[j], hasReqs)
    decreases |cs|
  {
    if j > 0 {
      FirstMarkerIsFirst(cs[1..], hasReqs, j - 1);
    }
  }

  /** A marker preceded by no other marker is the first one. */
  lemma {:induction false} FirstMarkerAt(cs: seq<Node>, hasReqs: bool, m: nat)
    requires m < |cs| && IsMarker(cs[m], hasReqs)
    requires forall j :: 0 <= j < m ==> !IsMarker(cs[j], hasReqs)
    ensures FirstMarker(cs, hasReqs) == Some(m)
    decreases |cs|
  {
    if m > 0 {
      FirstMarkerAt(cs[1..], hasReqs, m - 1);
    }
  }

  /** What `course_notes(td)` returns: the multi-line text of the children
      after the first marker, or `None` when there is no marker or that
      text is blank. */
  function NotesOf(td: Element): (r: Option<string>)
    ensures r.None? <==>
      || FirstMarker(td.children, UniReqs(td) != []).None?
      || forall j :: FirstMarker(td.children, UniReqs(td) != []).value < j < |td.children| ==>
           IsBlankNode(td.children[j])
    ensures r.Some? ==> r.value != [] && Unpadded(r.value)
  {
    NotesAbsent(td.children, UniReqs(td) != []);
    NotesAfter(td.children, UniReqs(td) != [])
  }

  /** The notes of children `cs` whose marker is `]` when `hasReqs` and a
      `strong` tag otherwise. */
  function NotesAfter(cs: seq<Node>, hasReqs: bool): Option<string> {
    match FirstMarker(cs, hasReqs)
    case None => None
    case Some(m) =>
      var t := MultilineOf(cs[m + 1..]);
      if AllSpace(t) then None else Some(t)
  }

  lemma NotesAfterMarker(cs: seq<Node>, hasReqs: bool, m: nat)
    requires FirstMarker(cs, hasReqs) == Some(m)
    ensures NotesAfter(cs, hasReqs) ==
      var t := MultilineOf(cs[m + 1..]);
      if AllSpace(t) then None else Some(t)
  {
  }

  /** The notes when child `m` is the first marker. */
  lemma NotesAtMarker(cs: seq<Node>, hasReqs: bool, m: nat)
    requires m < |cs| && IsMarker(cs[m], hasReqs)
    requires forall j :: 0 <= j < m ==> !IsMarker(cs[j], hasReqs)
    ensures NotesAfter(cs, hasReqs) ==
      var t := MultilineOf(cs[m + 1..]);
      if AllSpace(t) then None else Some(t)
  {
    FirstMarkerAt(cs, hasReqs, m);
    NotesAfterMarker(cs, hasReqs, m);
  }

  lemma NotesWithoutMarker(cs: seq<Node>, hasReqs: bool)
    requires FirstMarker(cs, hasReqs) == None
    ensures NotesAfter(cs, hasReqs) == None
  {
  }

  /** `course_notes(td)`: one iterator over the children is shared by the
      marker search and the text join, so the join starts right after the
      marker. */
  method CourseNotes(td: Element) returns (r: Option<string>)
    ensures r == NotesOf(td)
  {
    r := NotesScan(td.children, UniReqs(td) != []);
  }

  /** The body of `course_notes` once `uni_reqs(td)` has chosen the marker:
      `]` text when the title cell lists requirements, a `strong` tag
      otherwise. */
  method NotesScan(cs: seq<Node>, hasReqs: bool) returns (r: Option<string>)
    ensures r == NotesAfter(cs, hasReqs)
  {
    var foundClose := false;
    var k := 0;
    if hasReqs {
      while k < |cs|
        invariant 0 <= k <= |cs|
        invariant forall j :: 0 <= j < k ==> !IsCloseBracket(cs[j])
        invariant !foundClose
      {
        var tok := cs[k];
        k := k + 1;
        if IsCloseBracket(tok) {
          foundClose := true;
          break;
        }
      }
    } else {
      while k < |cs|
        invariant 0 <= k <= |cs|
        invariant forall j :: 0 <= j < k ==> !IsStrongTag(cs[j])
        invariant !foundClose
      {
        var tok := cs[k];
        k := k + 1;
        if IsStrongTag(tok) {
          foundClose := true;
          break;
        }
      }
    }
    if !foundClose {
      NotesWithoutMarker(cs, hasReqs);
      r := None;
    } else {
      NotesAtMarker(cs, hasReqs, k - 1);
      var ret := MultilineText(cs[k..]);
      StripBlank(ret);
      if Strip(ret) == [] {
        r := None;
      } else {
        r := Some(ret);
      }
    }
  }

  /** The notes are absent exactly when there is no marker or everything
      after the first marker is blank text or `br`; present notes are
      non-blank and carry no surrounding whitespace. */
  lemma NotesAbsent(cs: seq<Node>, hasReqs: bool)
    ensures NotesAfter(cs, hasReqs).None? <==>
      var m := FirstMarker(cs, hasReqs);
      m.None? || forall j :: m.value < j < |cs| ==> IsBlankNode(cs[j])
    ensures NotesAfter(cs, hasReqs).Some? ==>
      var t := NotesAfter(cs, hasReqs).value;
      t != [] && Unpadded(t)
  {
    var m := FirstMarker(cs, hasReqs);
    if m.None? {
      NotesWithoutMarker(cs, hasReqs);
    } else {
      NotesAfterMarker(cs, hasReqs, m.value);
      var rest := cs[m.value + 1..];
      MultilineBlank(rest);
      StrippedBlank(Concat(Pieces(rest)));
      BlankAfter(cs, m.value, rest);
      var t := MultilineOf(rest);
      assert t == Strip(Concat(Pieces(rest)));
      if t != [] {
        assert NotesAfter(cs, hasReqs) == Some(t);
      }
    }
  }

  /** Neither the first nor the last character is whitespace. */
  predicate Unpadded(r: string) {
    r == [] || (!IsSpace(r[0]) && !IsSpace(r[|r| - 1]))
  }

  /** Stripped text is blank only when it is empty, and otherwise neither
      starts nor ends with whitespace. */
  lemma StrippedBlank(s: string)
    ensures AllSpace(Strip(s)) <==> Strip(s) == []
    ensures Unpadded(Strip(s))
  {
    StripSpec(s);
  }

  lemma BlankAfter(cs: seq<Node>, m: nat, rest: seq<Node>)
    requires m < |cs| && rest == cs[m + 1..]
    ensures (forall j :: m < j < |cs| ==> IsBlankNode(cs[j])) <==>
            (forall i :: 0 <= i < |rest| ==> IsBlankNode(rest[i]))
  {
    if forall j :: m < j < |cs| ==> IsBlankNode(cs[j]) {
      forall i | 0 <= i < |rest| ensures IsBlankNode(rest[i]) {
        assert rest[i] == cs[i + m + 1];
      }
    }
    if forall i :: 0 <= i < |rest| ==> IsBlankNode(rest[i]) {
      forall j | m < j < |cs| ensures IsBlankNode(cs[j]) {
        assert rest[j - m - 1] == cs[j];
      }
    }
  }

  // ---------------------------------------------------------------------
  // enrollment_info

  datatype Enrollment = Enrollment(enrolled: int, limit: int, waiting: int)

  /** The five words of the enrollment figure, e.g. "4 / 10 / 0": the
      integers at positions 0, 2 and 4; the separators are not looked at.
      Any other number of words fails the unpacking, and a word that is not
      an integer fails `int()`; both raise `ValueError`. */
  function EnrollmentOfWords(ws: seq<string>): (r: Result<Enrollment>)
    ensures r.Err? ==> r.error == ValueError
  {
    if |ws| != 5 then Err(ValueError)
    else
      var enrolled :- ParseInt(ws[0]);
      var limit :- ParseInt(ws[2]);
      var waiting :- ParseInt(ws[4]);
      Ok(Enrollment(enrolled, limit, waiting))
  }

  /** The figure is read exactly when there are five words and the three
      at even positions are integers, and then it holds those integers. */
  lemma EnrollmentOfWordsOk(ws: seq<string>)
    ensures EnrollmentOfWords(ws).Ok? <==>
      |ws| == 5 && ParseInt(ws[0]).Ok? && ParseInt(ws[2]).Ok? && ParseInt(ws[4]).Ok?
    ensures EnrollmentOfWords(ws).Ok? ==>
      EnrollmentOfWords(ws).value == Enrollment(ParseInt(ws[0]).value, ParseInt(ws[2]).value, ParseInt(ws[4]).value)
  {
  }

  /** `enrollment_info(td)`: the figure is the cell's last content node;
      a cell without contents raises `IndexError`, and a tag in that place
      has no `split` to call (`TypeError`). */
  function EnrollmentInfo(td: Element): (r: Result<Enrollment>)
    ensures td.children == [] ==> r == Err(IndexError)
    ensures td.children != [] && td.children[|td.children| - 1].Tag? ==> r == Err(TypeError)
    ensures td.children != [] && td.children[|td.children| - 1].Text? ==>
      r == EnrollmentOfWords(Split(td.children[|td.children| - 1].s))
  {
    if td.children == [] then Err(IndexError)
    else
      var last := td.children[|td.children| - 1];
      if last.Tag? then Err(TypeError) else EnrollmentOfWords(Split(last.s))
  }

  /** The figures are read back from their decimal spellings, whatever
      the two separator words are. */
  lemma EnrollmentOfSpelling(e: int, l: int, w: int, a: string, b: string)
    ensures EnrollmentOfWords([IntToString(e), a, IntToString(l), b, IntToString(w)]) == Ok(Enrollment(e, l, w))
  {
    ParseIntOfString(e);
    ParseIntOfString(l);
    ParseIntOfString(w);
  }

  /** Only positions 0, 2 and 4 matter. */
  lemma SeparatorsIgnored(ws: seq<string>, vs: seq<string>)
    requires |ws| == 5 && |vs| == 5
    requires ws[0] == vs[0] && ws[2] == vs[2] && ws[4] == vs[4]
    ensures EnrollmentOfWords(ws) == EnrollmentOfWords(vs)
  {
  }

  /** The figure "4 / 10 / 0" of the example row gives 4 enrolled, a limit
      of 10 and 0 waiting. */
  lemma EnrollmentExample(td: Element)
    requires td.children != [] && td.children[|td.children| - 1] == Text("4 / 10 / 0")
    ensures EnrollmentInfo(td) == Ok(Enrollment(4, 10, 0))
  {
    ExampleWords();
    assert IntToString(4) == "4" && IntToString(10) == "10" && IntToString(0) == "0";
    EnrollmentOfSpelling(4, 10, 0, "/", "/");
  }

  lemma ExampleWords()
    ensures Split("4 / 10 / 0") == ["4", "/", "10", "/", "0"]
  {
    var ws := ["4", "/", "10", "/", "0"];
    assert Join(" ", ws) == "4 / 10 / 0";
    assert AllWords(ws) by {
      assert IsWord(ws[0]) && IsWord(ws[1]) && IsWord(ws[2]) && IsWord(ws[3]) && IsWord(ws[4]);
      assert ws[1..][1..][1..][1..][1..] == [];
    }
    SplitJoin(ws);
  }

  // ---------------------------------------------------------------------
  // enrollment_status

  /** `enrollment_status(td)`: the collapsed text of the first `span`; a
      cell without one raises `AttributeError` (no `.text` on `None`). */
  function EnrollmentStatus(td: Element): (r: Result<string>)
    ensures r.Err? <==> Find(td, "span").None?
    ensures r.Err? ==> r.error == AttributeError
    ensures r.Ok? ==> Collapsed(r.value)
  {
    match Find(td, "span")
    case None => Err(AttributeError)
    case Some(span) => Ok(Collapse(TextOf(span)))
  }

  /** Collapsing keeps the words of the status and their order. */
  lemma StatusKeepsWords(td: Element)
    requires Find(td, "span").Some?
    ensures Split(EnrollmentStatus(td).value) == Split(TextOf(Find(td, "span").value))
  {
    CollapseIdempotent(TextOf(Find(td, "span").value));
  }

  // ---------------------------------------------------------------------
  // instructor_info

  /** A character of `[0-9a-f]`. */
  predicate IsHex(c: char) {
    ('0' <= c <= '9') || ('a' <= c <= 'f')
  }

  predicate IsHexWord(s: string) {
    s != [] && forall i :: 0 <= i < |s| ==> IsHex(s[i])
  }

  /** The leading run of `[0-9a-f]`: what the greedy `+` takes. */
  function HexRun(s: string): (r: string)
    ensures r <= s && (forall i :: 0 <= i < |r| ==> IsHex(r[i]))
    ensures |r| == |s| || !IsHex(s[|r|])
  {
    if s == [] || !IsHex(s[0]) then [] else [s[0]] + HexRun(s[1..])
  }

  const EmplidKey := "emplid="

  /** `emplid=([0-9a-f]+)` matches at position `i` of `h`. */
  predicate EmplidAt(h: string, i: nat) {
    i + |EmplidKey| < |h| && h[i..i + |EmplidKey|] == EmplidKey && IsHex(h[i + |EmplidKey|])
  }

  /** `re.search` from position `i`: the group of the leftmost match. */
  function SearchEmplid(h: string, i: nat): (r: Option<string>)
    ensures r.None? <==> forall j :: i <= j < |h| ==> !EmplidAt(h, j)
    ensures r.Some? ==> IsHexWord(r.value)
    decreases |h| - i
  {
    if i >= |h| then None
    else if EmplidAt(h, i) then Some(HexRun(h[i + |EmplidKey|..]))
    else SearchEmplid(h, i + 1)
  }

  /** The match `SearchEmplid` reports is the leftmost one, and its group
      is the longest hex run after the key. */
  lemma {:induction false} SearchEmplidLeftmost(h: string, i: nat, m: nat)
    requires i <= m < |h| && EmplidAt(h, m)
    requires forall j :: i <= j < m ==> !EmplidAt(h, j)
    ensures SearchEmplid(h, i) == Some(HexRun(h[m + |EmplidKey|..]))
    decreases m - i
  {
    if i < m {
      SearchEmplidLeftmost(h, i + 1, m);
    }
  }

  /** `instructor_id(a)`: `KeyError` without an `href`, `AttributeError`
      when the pattern does not occur in it. */
  function InstructorId(a: Element): (r: Result<string>)
    ensures r.Ok? ==> IsHexWord(r.value)
    ensures r.Err? ==> r.error == KeyError || r.error == AttributeError
    ensures r.Err? && r.error == KeyError <==> "href" !in a.attrs
    ensures r.Ok? <==> "href" in a.attrs && SearchEmplid(a.attrs["href"], 0).Some?
    ensures r.Ok? ==> r.value == SearchEmplid(a.attrs["href"], 0).value
  {
    var h :- GetAttr(a, "href");
    match SearchEmplid(h, 0)
    case None => Err(AttributeError)
    case Some(id) => Ok(id)
  }

  /** One instructor per link, in document order; the first link that
      fails aborts the list. */
  function InstructorsOf(links: seq<Element>): (r: Result<seq<Instructor>>)
    ensures r.Ok? <==> forall k :: 0 <= k < |links| ==> InstructorId(links[k]).Ok?
    ensures r.Ok? ==> |r.value| == |links|
    decreases |links|
  {
    if links == [] then Ok([])
    else
      var name := Collapse(TextOf(links[0]));
      var id :- InstructorId(links[0]);
      var rest :- InstructorsOf(links[1..]);
      Ok([Instructor(name, id)] + rest)
  }

  /** The `k`-th instructor is named by the collapsed text of the `k`-th
      link and identified by the id in its `href`. */
  lemma {:induction false} InstructorsOfAt(links: seq<Element>, k: nat)
    requires InstructorsOf(links).Ok? && k < |links|
    ensures InstructorsOf(links).value[k] ==
      Instructor(Collapse(TextOf(links[k])), InstructorId(links[k]).value)
    decreases |links|
  {
    if k > 0 {
      InstructorsOfAt(links[1..], k - 1);
    }
  }

  /** `instructor_info(td)`: one instructor per link in the cell. */
  function InstructorInfo(td: Element): (r: Result<seq<Instructor>>)
    ensures r.Ok? <==> forall k :: 0 <= k < |FindAll(td, "a")| ==> InstructorId(FindAll(td, "a")[k]).Ok?
    ensures r.Ok? ==> |r.value| == |FindAll(td, "a")|
  {
    var links := FindAll(td, "a");
    if links == [] then Ok([]) else InstructorsOf(links)
  }

  /** No "em" pair starts in `s`, so no match of the pattern can start there. */
  predicate NoKeyStart(s: string) {
    forall j :: 0 <= j < |s| - 1 ==> s[j] != 'e' || s[j + 1] != 'm'
  }

  lemma NoKeyStartAppend(a: string, b: string)
    requires NoKeyStart(a) && NoKeyStart(b)
    requires a == [] || b == [] || a[|a| - 1] != 'e' || b[0] != 'm'
    ensures NoKeyStart(a + b)
  {
    var ab := a + b;
    forall j | 0 <= j < |ab| - 1 ensures ab[j] != 'e' || ab[j + 1] != 'm' {
      if j + 1 < |a| {
        assert ab[j] == a[j] && ab[j + 1] == a[j + 1];
      } else if j + 1 == |a| {
        assert ab[j] == a[|a| - 1] && ab[j + 1] == b[0];
      } else {
        assert ab[j] == b[j - |a|] && ab[j + 1] == b[j + 1 - |a|];
      }
    }
  }

  lemma KeyStartsWithEm(h: string, j: nat)
    ensures EmplidAt(h, j) ==> h[j] == 'e' && h[j + 1] == 'm'
  {
    if EmplidAt(h, j) {
      assert h[j..j + |EmplidKey|][0] == h[j] && h[j..j + |EmplidKey|][1] == h[j + 1];
    }
  }

  /** The faculty-guide prefix holds the key only at its end. */
  lemma PrefixKeyOnlyAtEnd()
    ensures NoKeyStart(FacultyGuidePrefix[..|FacultyGuidePrefix| - |EmplidKey| + 1])
  {
    var a, b := "https://www.brandeis.ed", "u/facguide/person.html?e";
    assert NoKeyStart(a);
    assert NoKeyStart(b);
    NoKeyStartAppend(a, b);
    assert FacultyGuidePrefix[..|FacultyGuidePrefix| - |EmplidKey| + 1] == a + b;
  }

  /** The id the `instructor_id` pattern reads off a faculty-guide URL
      built from a hex id is that id. */
  lemma LinkIdRoundTrip(id: string)
    requires IsHexWord(id)
    ensures SearchEmplid(FacultyGuidePrefix + id, 0) == Some(id)
  {
    var h := FacultyGuidePrefix + id;
    var m := |FacultyGuidePrefix| - |EmplidKey|;
    var p := FacultyGuidePrefix[..m + 1];
    PrefixKeyOnlyAtEnd();
    assert h[m..m + |EmplidKey|] == EmplidKey;
    assert h[m + |EmplidKey|..] == id;
    forall j | 0 <= j < m ensures !EmplidAt(h, j) {
      assert h[j] == p[j] && h[j + 1] == p[j + 1];
      assert p[j] != 'e' || p[j + 1] != 'm';
      KeyStartsWithEm(h, j);
    }
    SearchEmplidLeftmost(h, 0, m);
    HexRunOfHexWord(id);
  }

  /** A string holds no match when no "em" pair starts before or after
      position `m`, and the key at `m`, if any, is not followed by a hex
      digit. */
  lemma NoMatchAround(h: string, m: nat)
    requires m + |EmplidKey| < |h| && !IsHex(h[m + |EmplidKey|])
    requires NoKeyStart(h[..m + 1]) && NoKeyStart(h[m + 1..])
    ensures SearchEmplid(h, 0) == None
  {
    var p, q := h[..m + 1], h[m + 1..];
    forall j | 0 <= j < |h| ensures !EmplidAt(h, j) {
      KeyStartsWithEm(h, j);
      if j < m {
        assert h[j] == p[j] && h[j + 1] == p[j + 1];
      } else if m < j < |h| - 1 {
        assert h[j] == q[j - m - 1] && h[j + 1] == q[j - m];
      }
    }
  }

  /** The literal link `instructor_links` yields holds no id: "emplid=" is
      followed by a brace, and no other position starts the key. */
  lemma LiteralLinkHasNoId()
    ensures SearchEmplid(LiteralLink, 0) == None
  {
    var h := LiteralLink;
    var m := |FacultyGuidePrefix| - |EmplidKey|;
    PrefixKeyOnlyAtEnd();
    assert h[..m + 1] == FacultyGuidePrefix[..m + 1];
    assert FacultyGuidePrefix[m + 1..] == "mplid=";
    SuffixOfAppend(FacultyGuidePrefix, "{instructor.id}", m + 1);
    assert NoKeyStart(h[m + 1..]) by {
      assert h[m + 1..] == "mplid={instructor.id}";
    }
    assert h[m + |EmplidKey|] == '{';
    NoMatchAround(h, m);
  }

  /** A suffix of `s + t` that starts inside `s`, spelled generically so
      that the strings involved stay out of the proof. */
  lemma SuffixOfAppend<T>(s: seq<T>, t: seq<T>, i: nat)
    requires i <= |s|
    ensures (s + t)[i..] == s[i..] + t
  {
  }

  /** The intended links read back through `instructor_id`'s pattern as
      the instructors' ids, in order. */
  lemma IntendedLinksRoundTrip(c: Course, k: nat)
    requires k < |c.instructors| && IsHexWord(c.instructors[k].id)
    ensures SearchEmplid(IntendedInstructorLinks(c)[k], 0) == Some(c.instructors[k].id)
  {
    assert IntendedInstructorLinks(c)[k] == FacultyGuidePrefix + c.instructors[k].id;
    LinkIdRoundTrip(c.instructors[k].id);
  }

  lemma {:induction false} HexRunOfHexWord(s: string)
    requires forall i :: 0 <= i < |s| ==> IsHex(s[i])
    ensures HexRun(s) == s
    decreases |s|
  {
    if s != [] {
      HexRunOfHexWord(s[1..]);
    }
  }
}

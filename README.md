# brandeis-classes: the course-table extractor, modelled in Dafny

The system scrapes the Brandeis registrar's class schedule. Each course is a
`<tr>` of the `classes-list` table. Its `<td>` cells hold:
- the class number;
- the display number (subject, number with group letter, section) with a syllabus link;
- the title, with requirement spans and free-text notes;
- the meeting times and places, split by `<hr>` rules;
- the enrollment figures and status;
- the instructor links.

The extractor turns each row into a `Course` record. This project models that
extractor, and the older top-level version of it, and proves properties of the
model:

- `markup.dfy` (`Markup`): a parsed document is a tree of `Node`s, which are
  text nodes or tags with attributes and children. It also defines
  bs4-style queries: `.text`, `find_all` (pre-order), `find`, `tag[key]`, the
  `class` test, and `tag_filter`.
- `strings.dfy` (`Strings`): the Python string operations the code relies on.
  These are `str.strip`, `str.split()`, `" ".join(s.split())`, slicing, `in`,
  `str(int)` and `int(str)`, over the full `str.isspace()` whitespace set,
  NO-BREAK SPACE included.
- `records.dfy` (`Records`): `CourseTime`, `Instructor` and `Course`; the
  `friendly_number`, `uni_reqs_str`, `instructor_str` and `__str__`
  properties; and the `dict`/`from_dict` pair over a small JSON value type.
- `schedule.dfy` (`Schedule`): `parse_times`. This is an imperative method
  proved equal to a left-to-right scan function, plus lemmas about that scan.
- `fields.dfy` (`Fields`): the per-cell extractors. These are
  `multiline_text`, `syllabus`, `course_ids`, `uni_reqs`, `course_notes` (a
  loop sharing one iterator between the marker search and the text join),
  `enrollment_info`, `enrollment_status` and `instructor_info`.
- `page.dfy` (`Page`): `tr_is_course`, `tr_to_course` (with
  `request_description=False`), `page_to_courses` and `strm`.
- `legacy.dfy` (`Legacy`): the top-level `brandeis.py`. This covers its
  `CourseTime` class, whose objects `parse_times` mutates in place; `grouper`,
  read into a list of chunks; and its `row_to_course`.

An exception the code lets escape is an `Err` of a `Result`, named after the
Python exception class (`ValueError`, `IndexError`, `KeyError`,
`AttributeError`, `TypeError`, and the module's own `Unreachable`).

The code is followed where its behaviour differs from its written
description or from what its comments suggest:
- A row whose extractor raises makes the whole page fail; rows are not
  dropped one by one.
- A course-id cell without a syllabus link raises `Unreachable`.
- `instructor_links` is not an f-string, so it yields the same literal link,
  placeholder included, for every instructor (see "## Findings").
- The legacy scanner assigns `meeting.time`, so `times` stays `None`. It
  counts every child, blank strings and tags included.
- The newer scanner never clears a field at an `hr`, so a meeting inherits
  the previous one's block, times, location and info.
- The layout drawn in the scanner's own comment is therefore misfiled.
  After the `hr` the recitation still has the lecture's block. Its times
  line is position 0 and is filed as times. Its location line is position 1
  and, because a block is set, overwrites those times. The recitation ends
  up with its location as times and the lecture's location as location
  (`Schedule.CommentLayoutExample`).

## Model

| member | source | states |
|---|---|---|
| `Strings.TrimLeftSpec` | brandeis_classes/brandeis.py:185 | `lstrip` leaves the suffix after a whitespace prefix, empty or starting with non-whitespace, and empty exactly for blank input |
| `Strings.TrimRightSpec` | brandeis_classes/brandeis.py:185 | `rstrip` leaves the prefix before a whitespace suffix, empty or ending with non-whitespace, and empty exactly for blank input |
| `Strings.StripSpec` | brandeis_classes/brandeis.py:185 | `strip()` is the input with a whitespace prefix and a whitespace suffix removed; it is empty exactly when the input is all whitespace, and otherwise neither starts nor ends with whitespace |
| `Strings.SplitWords` | brandeis_classes/brandeis.py:189 | `split()` yields non-empty words without whitespace, and no words exactly when the string is all whitespace |
| `Strings.SplitJoin` | brandeis_classes/brandeis.py:189 | splitting the single-space join of any list of words gives that list back |
| `Strings.Collapse` | brandeis_classes/brandeis.py:189 | `" ".join(s.split())` has only single spaces between non-space characters, and is empty exactly when `s` is blank |
| `Strings.CollapseIdempotent` | brandeis_classes/brandeis.py:299 | collapsing keeps the words and collapsing twice changes nothing |
| `Strings.Drop` | brandeis_classes/brandeis.py:198 | `el[6:]` is what follows the first six characters, and empty for a shorter string |
| `Strings.ContainsIff` | brandeis_classes/brandeis.py:248 | substring `in` holds exactly when the needle occurs at some position |
| `Strings.NatToDecimal` | brandeis_classes/brandeis.py:110 | `str(n)` is a non-empty digit string denoting `n` with no leading zero |
| `Strings.ParseIntOfString` | brandeis_classes/brandeis.py:295 | `int(str(n)) == n` for every integer, negative ones included |
| `Markup.FilterTags` | brandeis_classes/brandeis.py:386-391 | `filter(tag_filter(name), children)` is never longer than the children; each element is a child that is a tag of that name, and every such child is kept |
| `Markup.FilterTagsAppend` | brandeis_classes/brandeis.py:400 | filtering distributes over concatenation, so order is kept |
| `Markup.Find` | brandeis_classes/brandeis.py:357 | `find` is `None` exactly when `find_all` is empty, and otherwise its first element |
| `Markup.GetAttr` | brandeis_classes/brandeis.py:249 | `tag[key]` succeeds exactly when the attribute exists, with its value, and otherwise raises `KeyError` |
| `Records.InstructorLinks` | brandeis_classes/brandeis.py:97-104 | as written: one link per instructor, each the same literal string with the `{instructor.id}` placeholder left in it |
| `Records.InstructorLinksIgnoreIds` | brandeis_classes/brandeis.py:101-104 | the links as written depend only on how many instructors there are, not on their ids |
| `Records.IntendedInstructorLinks` | brandeis_classes/brandeis.py:98-100 | as the docstring intends: one link per instructor, each the faculty-guide prefix followed by that instructor's id |
| `Records.FriendlyNumber` | brandeis_classes/brandeis.py:106-112 | the display number starts with the subject, a space, the number and the group; it has exactly that length when the section is empty, and otherwise is exactly that followed by `_` and the section |
| `Records.FriendlyNumberParts` | brandeis_classes/brandeis.py:106-112 | for a word-shaped subject, group and section, the display number splits into exactly the subject and the number part, and the `_section` suffix is absent exactly when the section is empty |
| `Records.FriendlyNumberExample` | test_brandeis.py:15 | COSI, 119, A, section 1 display as `COSI 119A_1` |
| `Records.UniReqsStr` | brandeis_classes/brandeis.py:114-118 | empty exactly when there are no requirements, otherwise the `", "`-join in square brackets |
| `Records.InstructorStr` | brandeis_classes/brandeis.py:120-124 | empty with no instructors, the name alone with one |
| `Records.CourseStr` | brandeis_classes/brandeis.py:143-146 | it starts with the number, name and parenthesised instructors; it is exactly that when there are no requirements, and otherwise that, a space and the bracketed requirements |
| `Records.CourseTimeRoundTrip` | brandeis_classes/brandeis.py:29-31 | `CourseTime(**t.dict())` is `t` |
| `Records.CourseTimeFromDictExact` | brandeis_classes/brandeis.py:138 | a dictionary `CourseTime(**d)` accepts is exactly the dictionary of the meeting built |
| `Records.InstructorRoundTrip` | brandeis_classes/brandeis.py:43-45 | `Instructor(**i.dict())` is `i` |
| `Records.InstructorFromDictExact` | brandeis_classes/brandeis.py:140 | a dictionary `Instructor(**d)` accepts is exactly the dictionary of the instructor built |
| `Records.ScheduleRoundTrip` | brandeis_classes/brandeis.py:128-129 | rebuilding the meeting list from its dictionaries gives the list back |
| `Records.ScheduleFromJsonExact` | brandeis_classes/brandeis.py:137-138 | a meeting-dictionary list that rebuilds is exactly the list of the meetings built |
| `Records.InstructorsRoundTrip` | brandeis_classes/brandeis.py:130-131 | rebuilding the instructor list from its dictionaries gives the list back |
| `Records.InstructorsFromJsonExact` | brandeis_classes/brandeis.py:139-140 | an instructor-dictionary list that rebuilds is exactly the list of the instructors built |
| `Records.StringsRoundTrip` | brandeis_classes/brandeis.py:126-127 | the requirement list survives conversion unchanged |
| `Records.StringsFromJsonExact` | brandeis_classes/brandeis.py:136 | a requirement list that reads back is exactly the list read |
| `Records.ScheduleFromJson` | brandeis_classes/brandeis.py:137-138 | every failure to rebuild a meeting list is a `TypeError` |
| `Records.InstructorsFromJson` | brandeis_classes/brandeis.py:139-140 | every failure to rebuild an instructor list is a `TypeError` |
| `Records.StringsFromJson` | brandeis_classes/brandeis.py:136 | every failure to read a requirement list is a `TypeError` |
| `Records.CourseToDict` | brandeis_classes/brandeis.py:126-132 | `dict()` is a dictionary whose keys are exactly the eighteen field names |
| `Records.CourseFromDict` | brandeis_classes/brandeis.py:134-141 | a value that is not a dictionary with exactly the field names raises `TypeError`, and every failure is a `TypeError` |
| `Records.HeldLists` | brandeis_classes/brandeis.py:135-140 | the meeting, instructor and requirement fields of a held course rebuild as its lists |
| `Records.HeldOptionals` | brandeis_classes/brandeis.py:135 | the description, notes, semester and year of a held course read back as its own |
| `Records.FromHeldCourse` | brandeis_classes/brandeis.py:135-141 | a dictionary holding each field of `c` in `dict()` form reads back as `c` |
| `Records.CourseRoundTrip` | brandeis_classes/brandeis.py:126-141 | `Course.from_dict(c.dict()) == c`, meetings and instructors included |
| `Records.FromDictHolds` | brandeis_classes/brandeis.py:135-141 | a dictionary that `from_dict` accepts holds every field of the course it builds |
| `Records.HoldsCourseUnique` | brandeis_classes/brandeis.py:126-132 | two dictionaries holding the same course are equal |
| `Records.CourseFromDictExact` | brandeis_classes/brandeis.py:135-141 | a dictionary that `from_dict` accepts is exactly `dict()` of the course it builds, so the pair is a bijection |
| `Schedule.ParseTimes` | brandeis_classes/brandeis.py:149-213 | the loop returns the scan of the children, with one meeting per `hr` plus one |
| `Schedule.StepSchedule` | brandeis_classes/brandeis.py:172-182 | a child appends the pending meeting exactly when it is an `hr` |
| `Schedule.StepCounter` | brandeis_classes/brandeis.py:170-193 | an `hr` resets the counter to -1; a text that is non-empty once collapsed advances it by one; anything else leaves it |
| `Schedule.StepKeepsFields` | brandeis_classes/brandeis.py:150-203 | no child turns a set field back to `None` |
| `Schedule.MeetingCount` | brandeis_classes/brandeis.py:171-213 | exactly one meeting per direct-child `hr` plus the last, so never empty |
| `Schedule.CounterCountsSegmentTokens` | brandeis_classes/brandeis.py:168-193 | the counter is the number of non-blank texts since the last `hr`, minus one |
| `Schedule.BlockIsLastBlockLine` | brandeis_classes/brandeis.py:195-198 | the block is the tail of the last "Block" line so far, across `hr`s |
| `Schedule.InfoIsLastStrong` | brandeis_classes/brandeis.py:184-185 | the info is the stripped text of the last `strong` so far, across `hr`s |
| `Schedule.TokenClassified` | brandeis_classes/brandeis.py:187-203 | a non-blank text is counted and filed as block, then times at position 0 (or 1 after a block), then location, touching no other field |
| `Schedule.ClosedMeetingsStay` | brandeis_classes/brandeis.py:173-181 | meetings already appended are never changed or removed |
| `Schedule.FieldsNeverCleared` | brandeis_classes/brandeis.py:150-153 | once a field is set it stays set for the rest of the cell |
| `Schedule.MeetingAtHr` | brandeis_classes/brandeis.py:173-181 | the meeting emitted at the k-th `hr` is the pending state just before it |
| `Schedule.FieldsInherited` | brandeis_classes/brandeis.py:173-185 | children that are neither counted texts nor `strong`s leave the pending meeting as it was, even across an `hr` |
| `Schedule.OnlyRelevantChildrenMatter` | brandeis_classes/brandeis.py:171-192 | dropping blank texts and tags other than `hr` and `strong` does not change the result |
| `Schedule.TwoMeetingExample` | test_brandeis.py:23-33 | the tested two-meeting cell yields the two meetings, the second inheriting the first's location |
| `Schedule.CommentLayoutExample` | brandeis_classes/brandeis.py:156-166 | the layout in the scanner's comment gives two meetings that share the block; the second takes its location line as times and the first's location |
| `Schedule.BlockAfterAnySpace` | brandeis_classes/brandeis.py:189-198 | "Block" followed by any whitespace character and a word collapses to "Block", a space and the word, and the block is the word |
| `Schedule.BlockWithNoBreakSpace` | test_brandeis.py:25 | "Block", NO-BREAK SPACE, "S3" gives the block `S3` |
| `Fields.MultilineText` | brandeis_classes/brandeis.py:216-227 | the loop returns the stripped join of the pieces: stripped text, a newline per `br`, the markup of any other tag |
| `Fields.PieceBlank` | brandeis_classes/brandeis.py:219-226 | a piece is blank exactly when its node is blank text or a `br` |
| `Fields.AllSpaceConcat` | brandeis_classes/brandeis.py:227 | the join is blank exactly when every piece is |
| `Fields.MultilineBlank` | brandeis_classes/brandeis.py:216-227 | the result is "" exactly when every node is blank text or a `br` |
| `Fields.FirstSyllabusLink` | brandeis_classes/brandeis.py:247-249 | the first link whose text contains "Syllabus", and none exactly when no link does |
| `Fields.Syllabus` | brandeis_classes/brandeis.py:246-251 | `Unreachable` exactly when there is no syllabus link; otherwise the `href` of the first one, which succeeds exactly when that link has an `href`, and `KeyError` otherwise |
| `Fields.DigitRun` | brandeis_classes/brandeis.py:256 | `(\d+)` takes the longest leading digit run |
| `Fields.NonDigitRun` | brandeis_classes/brandeis.py:256 | `([^0-9]*)` takes the longest following run without digits |
| `Fields.IdsOfWords` | brandeis_classes/brandeis.py:254-257 | succeeds exactly when there are at least three words and the second starts with a digit; fewer than three words raise `ValueError`, and every other failure is `AttributeError`; subject and section are the 1st and 3rd words, the number is the value of the second's digit run, and the group is the longest digit-free run that follows it |
| `Fields.GroupOfRest` | brandeis_classes/brandeis.py:256 | `([^0-9]*)` after `(\d+)` is a group in that sense |
| `Fields.GroupIsMaximal` | brandeis_classes/brandeis.py:256 | a word has only one such group, so the group is determined |
| `Fields.CourseIds` | brandeis_classes/brandeis.py:254-257 | on the cell's text: succeeds exactly when there are at least three words and the second starts with a digit; errors are `ValueError` or `AttributeError`; subject and section are the 1st and 3rd words, the number is the value of the second word's leading digits, and the group is its maximal digit-free run after them |
| `Fields.IdsOfDisplay` | brandeis_classes/brandeis.py:254-257 | words spelled as subject, number with a digit-free group, and section read back as exactly those parts |
| `Fields.DigitRunOf` | brandeis_classes/brandeis.py:256 | a digit string followed by a non-digit is matched in full |
| `Fields.NonDigitRunOf` | brandeis_classes/brandeis.py:256 | a digit-free string is matched in full |
| `Fields.WithClass` | brandeis_classes/brandeis.py:262 | keeps exactly the elements carrying the class |
| `Fields.WithClassAppend` | brandeis_classes/brandeis.py:262 | the filter distributes over concatenation, so order and repeats are kept |
| `Fields.WithClassOne` | brandeis_classes/brandeis.py:262 | a single element is kept exactly when it carries the class |
| `Fields.UniReqs` | brandeis_classes/brandeis.py:260-263 | one requirement per requirement span |
| `Fields.UniReqsTrimmed` | brandeis_classes/brandeis.py:262 | each requirement is its span's stripped text: empty only for a blank span, never padded |
| `Fields.FirstMarker` | brandeis_classes/brandeis.py:269-278 | the first marker child (`]` text with requirements, a `strong` without), and none exactly when no child is one |
| `Fields.FirstMarkerIsFirst` | brandeis_classes/brandeis.py:269-278 | no child before the chosen marker is a marker |
| `Fields.FirstMarkerAt` | brandeis_classes/brandeis.py:269-278 | a marker preceded by no marker is the one chosen |
| `Fields.NotesAtMarker` | brandeis_classes/brandeis.py:269-288 | with child `m` the first marker, the notes come from the children after `m` |
| `Fields.CourseNotes` | brandeis_classes/brandeis.py:266-288 | the method returns the notes of the cell, its marker chosen by `uni_reqs` |
| `Fields.NotesScan` | brandeis_classes/brandeis.py:267-288 | the shared-iterator loops return the text after the first marker, or `None` |
| `Fields.NotesOf` | brandeis_classes/brandeis.py:266-288 | no notes exactly when there is no marker or only blank text and `br`s follow it; present notes are non-empty and unpadded |
| `Fields.NotesAbsent` | brandeis_classes/brandeis.py:280-288 | no notes exactly when there is no marker or only blank text and `br`s follow it; present notes are non-empty and unpadded |
| `Fields.EnrollmentOfWords` | brandeis_classes/brandeis.py:294-295 | every failure is a `ValueError` |
| `Fields.EnrollmentInfo` | brandeis_classes/brandeis.py:291-295 | `IndexError` for an empty cell, `TypeError` when the last child is a tag, otherwise the five-word reading of the last text |
| `Fields.EnrollmentOfSpelling` | brandeis_classes/brandeis.py:294-295 | any three integers spelled with any separators read back as themselves |
| `Fields.SeparatorsIgnored` | brandeis_classes/brandeis.py:293-294 | the 2nd and 4th words do not affect the result |
| `Fields.EnrollmentExample` | test_brandeis.py:34-36 | a cell ending in "4 / 10 / 0" gives (4, 10, 0) |
| `Fields.EnrollmentStatus` | brandeis_classes/brandeis.py:298-299 | `AttributeError` exactly when there is no `span`; otherwise a collapsed string |
| `Fields.StatusKeepsWords` | brandeis_classes/brandeis.py:299 | the status has the same words as the span's text |
| `Fields.HexRun` | brandeis_classes/brandeis.py:306 | `[0-9a-f]+` takes the longest leading lower-case hex run |
| `Fields.SearchEmplid` | brandeis_classes/brandeis.py:306 | no match exactly when "emplid=" followed by a hex digit occurs nowhere from position `i`; a match is a non-empty hex word |
| `Fields.SearchEmplidLeftmost` | brandeis_classes/brandeis.py:306 | the match is the hex run after the leftmost occurrence |
| `Fields.InstructorId` | brandeis_classes/brandeis.py:305-306 | succeeds exactly when there is an `href` and the emplid search on it matches, with the matched hex word; `KeyError` exactly when there is no `href`, otherwise `AttributeError` |
| `Fields.InstructorsOf` | brandeis_classes/brandeis.py:312-315 | succeeds exactly when every link has an id, with one instructor per link |
| `Fields.InstructorsOfAt` | brandeis_classes/brandeis.py:313 | the k-th instructor is the k-th link's collapsed text and id |
| `Fields.InstructorInfo` | brandeis_classes/brandeis.py:302-315 | succeeds exactly when every link in the cell has an id, with one instructor per link |
| `Fields.LinkIdRoundTrip` | brandeis_classes/brandeis.py:306 | the id searched out of a faculty-guide URL built from a hex id is that id |
| `Fields.LiteralLinkHasNoId` | brandeis_classes/brandeis.py:102 | the pattern of `instructor_id` finds no id in the literal link `instructor_links` yields |
| `Fields.IntendedLinksRoundTrip` | brandeis_classes/brandeis.py:102 | the k-th intended link reads back as the k-th instructor's hex id |
| `Page.TrIsCourse` | brandeis_classes/brandeis.py:318-330 | the result is either empty or the row's `td` children in order |
| `Page.CourseRowIff` | brandeis_classes/brandeis.py:318-330 | a row is a course exactly when it has at least six cells and is not the header row |
| `Page.CourseName` | brandeis_classes/brandeis.py:357 | `AttributeError` exactly when the title cell has no `strong`, otherwise the stripped text of the first `strong` |
| `Page.TrToCourse` | brandeis_classes/brandeis.py:333-339 | `None` exactly when the row is not a course; a course row gives the course of its cells, or that course's error |
| `Page.CourseOfCells` | brandeis_classes/brandeis.py:342-383 | a course built from the cells has no description, semester or year |
| `Page.CellsError` | brandeis_classes/brandeis.py:355-383 | a course row fails exactly when one of its extractors raises, with the first one's error in evaluation order |
| `Page.CellsFields` | brandeis_classes/brandeis.py:342-383 | each field of the course comes from its own column's extractor; description, semester and year are `None` |
| `Page.CellsCourseShape` | brandeis_classes/brandeis.py:355-383 | a course has one meeting per `hr` plus one, one requirement per span, a collapsed status and hex instructor ids |
| `Page.FirstClassesList` | brandeis_classes/brandeis.py:396 | the first node that is the `classes-list` table, and none exactly when there is none |
| `Page.ClassesTable` | brandeis_classes/brandeis.py:396-399 | the classes table when there is one, the whole document otherwise |
| `Page.RowsToCourses` | brandeis_classes/brandeis.py:400-405 | the page succeeds exactly when every row does, with at most one course per row |
| `Page.PageToCourses` | brandeis_classes/brandeis.py:394-405 | the page succeeds exactly when every `tr` child of the classes table does, with at most one course per row |
| `Page.RowsKept` | brandeis_classes/brandeis.py:405 | the courses are those of the course rows, one each in row order; only non-course rows are dropped |
| `Page.IndexOf` | brandeis_classes/brandeis.py:422 | `list.index` is the first position, and `ValueError` exactly when absent |
| `Page.Strm` | brandeis_classes/brandeis.py:420-423 | `ValueError` exactly for an unknown semester; a code lies in 1001..1993 and ends in 1, 2 or 3 |
| `Page.StrmInjective` | brandeis_classes/brandeis.py:420-423 | two codes are equal exactly when the years agree modulo 100 and the semesters agree |
| `Page.StrmDecode` | brandeis_classes/brandeis.py:420-423 | the year modulo 100 and the semester can be read back from the code |
| `Page.StrmExample` | brandeis_classes/brandeis.py:420-423 | 2018 Fall is 1183 |
| `Legacy.CourseTime.constructor` | brandeis.py:28-33 | a new meeting object has every field `None` |
| `Legacy.ParseTimes` | brandeis.py:71-101 | the objects' values are the scan of the children; every object is new and none appears twice |
| `Legacy.AbsorbInto` | brandeis.py:83-97 | updating the current object in place gives the scan's new meeting value |
| `Legacy.MeetingCount` | brandeis.py:76-100 | one meeting per `hr` child plus the last, so never empty |
| `Legacy.TimesNeverSet` | brandeis.py:93-95 | no meeting ever has `times` set |
| `Legacy.CounterCountsChildren` | brandeis.py:74-98 | the counter counts every child since the last `hr`, tags and blank strings included, and the `hr` itself leaves 1 |
| `Legacy.FreshAfterHr` | brandeis.py:78-81 | an `hr` appends the current meeting and starts a blank one with the counter at 1 |
| `Legacy.NothingInherited` | brandeis.py:78-81 | nothing before an `hr` affects the meetings after it |
| `Legacy.BlankSetsLocation` | brandeis.py:86-97 | a blank string is not skipped: past the times position it sets `location` to "" and advances the counter |
| `Legacy.TextClassified` | brandeis.py:86-97 | a stripped string is filed as block, then `time` at position 0 (or 1 after a block), then location, touching nothing else |
| `Legacy.TagAbsorbed` | brandeis.py:76-98 | a tag other than `hr` closes nothing and advances the counter; a `strong` sets only `info`, to its stripped text, and any other tag changes nothing |
| `Legacy.Grouper` | brandeis.py:160-171 | a negative size raises `ValueError`, zero gives no chunks, and a positive size gives the chunks of that size |
| `Legacy.Chunks` | brandeis.py:160-171 | no chunks exactly for empty input, and never more chunks than elements |
| `Legacy.FlattenChunks` | brandeis.py:160-171 | the chunks concatenate back to the input |
| `Legacy.ChunksBounded` | brandeis.py:164-171 | every chunk is non-empty and holds at most `n` elements |
| `Legacy.ChunksFull` | brandeis.py:164-171 | every chunk but the last holds exactly `n` elements |
| `Legacy.ChunksCount` | brandeis.py:164-170 | there are no chunks exactly for empty input, otherwise `ceil(len/n)` of them |
| `Legacy.ChunksUnique` | brandeis.py:160-171 | any list of non-empty chunks, each full except the last, is the chunking of its concatenation |
| `Legacy.RawEnrollment` | brandeis.py:131 | `IndexError` for an empty cell, `TypeError` when the last child is a tag; a last text succeeds exactly when it has five words, keeping the 1st, 3rd and 5th as strings |
| `Legacy.RawEnrollmentAgrees` | brandeis.py:129-131 | wherever the newer reader succeeds, the legacy one does too, and `int()` of its words gives the newer figures |
| `Legacy.InstructorLinkId` | brandeis.py:133-135 | `TypeError` without a link, otherwise the id search on the first link's `href` |
| `Legacy.RowToCourse` | brandeis.py:120 | fewer than six `td`s fail the unpacking with `ValueError` |
| `Legacy.CellsOk` | brandeis.py:120-158 | a legacy row is built exactly when every extractor it runs succeeds |
| `Legacy.CellsFields` | brandeis.py:120-158 | each field of the legacy course comes from its own column; the description is the one fetched |
| `Legacy.CellsShape` | brandeis.py:121-151 | the number is the leading digit run's value and the group is the longest digit-free run after it; the figures are the raw 1st, 3rd and 5th words; one meeting per `hr` plus one, none with `times` |

## Findings

| source | as written | input that shows it | evidently intended | confidence | as-written member | corrected member |
|---|---|---|---|---|---|---|
| brandeis_classes/brandeis.py:102 | the link string has no `f` prefix, so every link is `https://www.brandeis.edu/facguide/person.html?emplid={instructor.id}`, from which `instructor_id`'s pattern reads no id | any course with one instructor, id `abc123`: the link does not end in `abc123` | the faculty-guide URL ending in the instructor's id, as the docstring says | high; not executed | `Records.InstructorLinks`, `Fields.LiteralLinkHasNoId` | `Records.IntendedInstructorLinks`, `Fields.IntendedLinksRoundTrip` |

## Left out

- `course_description` (both files) fetches a page over the network. `Page.TrToCourse` models `tr_to_course(tr, request_description=False)`, so the description is `None`. `Legacy.RowToCourse` takes the fetched description as a parameter, so a failed fetch or a missing `p` is not modelled.
- `load_courses` reads JSON from a file. `from_dict` is modelled on a JSON value, and file reading and JSON parsing are not.
- `schedule_url` only formats the crawler's URL and is left out with the crawler. So are the `title` alias of `name` and the whole-repository constants tables; of those tables only `SEMESTERS` is used, by `strm`.
- HTML parsing is not modelled: a document is given as a `Node` tree. `str(tag)` is a simplified rendering, `Markup.Render`, which writes no attributes at all: a notes cell holding `<a href="u">x</a>` contributes `<a>x</a>` to `Fields.MultilineText`, where the source keeps the attribute. The model's attribute maps have no order from which to write them as the parser does, and entity escaping is not modelled either. Comments and other `NavigableString` subclasses are plain text nodes.
- The `re.match` and `re.search` patterns are hand-written scanners. `\d` is taken as an ASCII digit, and Python's `int()` is modelled for ASCII digits only (sign, surrounding whitespace and single underscores are modelled). Python `str` patterns also match other Unicode digits; those are not modelled.
- `td.contents[-1].split()` on a tag: bs4 reads `.split` as a search for a `<split>` child, finds none, and calling `None` raises `TypeError`. The model gives `TypeError` whenever the last child is a tag, and does not model a cell that really has a `<split>` child.
- Records.CourseFromDict: is stricter than `from_dict`, which checks no value types, and gives `TypeError` where the source builds a course. This covers a scalar field of the wrong JSON type. It covers a `schedule`, `instructors` or `uni_reqs` that is not a list: falsy values such as `null` included, which `if ret.schedule:` and `if ret.instructors:` leave stored as they are, and `uni_reqs` is never inspected at all. It covers a meeting value that is neither a string nor `null`, an instructor value that is not a string (`CourseTime(**s)` and `Instructor(**i)` check neither), and a requirement that is not a string. Everything `dict()` produces passes, so the round trips are unaffected; these inputs are rejected rather than stored.
- Records.InstructorStr: the contract states only the no-instructor and one-instructor cases; longer lists are the `"; "`-join of the names by definition.
- Schedule.CommentLayoutExample: records that the scanner misfiles its own commented layout. No corrected scanner is modelled, because the source gives no other filing rule to state as the intended one; the model keeps the code's behaviour.
- Legacy.Grouper: reads each chunk in full before taking the next, as `list(chunk)` does. Interleaving chunk iterators that share the source iterator, and `n=None`, are not modelled.
- Legacy.RowToCourse: its contract states only the short-row case; a full row is `Legacy.CourseOfCells`, whose fields `Legacy.CellsFields` and `Legacy.CellsShape` state.
- The crawler and the schedule-scraping scripts, which involve the network, sleeping, randomness, file writes and the command line, are not part of this model.

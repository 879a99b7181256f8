/**
  Exporting the store: the raw dump of the keyed collections
  (main.py:333-355) and the three Canvas SIS files built from the sections
  (main.py:357-404). Each output file is its name, its header line and its
  rows; writing the files is not part of this model.
*/
module CsvExport {
  import opened Wrappers
  import opened OrderedMaps
  import opened Entities
  import opened Repository
  import CsvImport

  /** A CSV file as `csv.DictWriter` would write it. */
  datatype CsvFile = CsvFile(name: string, headers: seq<string>, rows: seq<Fields>)

  // ---------------------------------------------------------------------
  // export_data_to_csvs

  /** `export_map`'s header lists. */
  function ExportHeaders(kind: Kind): seq<string> {
    match kind
    case PersonKind => ["user_id", "name", "program_area_name"]
    case CourseKind => ["course_id_portion", "short_name", "long_name", "program_area_name"]
    case TermKind => ["name", "term_id", "short_code"]
    case AccountKind => ["account_id"]
    case ProgramAreaKind => ["name"]
  }

  /** `obj.to_dict()` for every record of the kind: one row per record, in insertion order. */
  function ExportRows(r: Repo, kind: Kind): (rows: seq<Fields>)
    requires r.Valid()
    ensures kind == PersonKind ==>
              |rows| == |r.people.keys| &&
              forall i | 0 <= i < |rows| :: rows[i] == PersonToDict(r.people.entries[r.people.keys[i]])
    ensures kind == CourseKind ==>
              |rows| == |r.courses.keys| &&
              forall i | 0 <= i < |rows| :: rows[i] == CourseToDict(r.courses.entries[r.courses.keys[i]])
    ensures kind == TermKind ==>
              |rows| == |r.terms.keys| &&
              forall i | 0 <= i < |rows| :: rows[i] == TermToDict(r.terms.entries[r.terms.keys[i]])
    ensures kind == AccountKind ==>
              |rows| == |r.accounts.keys| &&
              forall i | 0 <= i < |rows| :: rows[i] == AccountToDict(r.accounts.entries[r.accounts.keys[i]])
    ensures kind == ProgramAreaKind ==>
              |rows| == |r.programAreas.keys| &&
              forall i | 0 <= i < |rows| ::
                rows[i] == ProgramAreaToDict(r.programAreas.entries[r.programAreas.keys[i]])
  {
    match kind
    case PersonKind => MapValues(r.people, PersonToDict).Values()
    case CourseKind => MapValues(r.courses, CourseToDict).Values()
    case TermKind => MapValues(r.terms, TermToDict).Values()
    case AccountKind => MapValues(r.accounts, AccountToDict).Values()
    case ProgramAreaKind => MapValues(r.programAreas, ProgramAreaToDict).Values()
  }

  /**
    The file written for one requested data type. A known data type is
    written exactly when its collection is non-empty, under its own name and
    header list, with the records' rows; every row has exactly the file's
    columns, so the writer never meets a field it has no column for.
  */
  function ExportTable(r: Repo, dataType: string): (f: Option<CsvFile>)
    requires r.Valid()
    ensures f.Some? <==>
              CsvImport.KindOf(dataType).Some? && |ExportRows(r, CsvImport.KindOf(dataType).value)| > 0
    ensures f.Some? ==>
              var kind := CsvImport.KindOf(dataType).value;
              && f.value.name == dataType + ".csv"
              && f.value.headers == ExportHeaders(kind)
              && f.value.rows == ExportRows(r, kind)
              && forall row <- f.value.rows :: row.Keys == set h <- f.value.headers
  {
    match CsvImport.KindOf(dataType)
    case None => None
    case Some(kind) =>
      var rows := ExportRows(r, kind);
      ExportRowsKeys(r, kind);
      if rows == [] then None else Some(CsvFile(dataType + ".csv", ExportHeaders(kind), rows))
  }

  /** The files written for the requested data types, in request order: never an empty one. */
  function ExportFold(r: Repo, dataTypes: seq<string>): (files: seq<CsvFile>)
    requires r.Valid()
    ensures |files| <= |dataTypes|
    ensures forall f <- files :: f.rows != []
  {
    if dataTypes == [] then []
    else
      var n := |dataTypes| - 1;
      var prev := ExportFold(r, dataTypes[..n]);
      match ExportTable(r, dataTypes[n])
      case None => prev
      case Some(f) => prev + [f]
  }

  /** The loop of `export_data_to_csvs`. */
  method ExportFiles(r: Repo, dataTypes: seq<string>) returns (files: seq<CsvFile>)
    requires r.Valid()
    ensures files == ExportFold(r, dataTypes)
  {
    files := [];
    assert dataTypes[..0] == [];
    for i := 0 to |dataTypes|
      invariant files == ExportFold(r, dataTypes[..i])
    {
      assert dataTypes[..i + 1][..i] == dataTypes[..i];
      var kind := CsvImport.KindOf(dataTypes[i]);
      if kind.None? {
        continue;
      }
      var rows := ExportRows(r, kind.value);
      if rows == [] {
        continue;
      }
      files := files + [CsvFile(dataTypes[i] + ".csv", ExportHeaders(kind.value), rows)];
    }
    assert dataTypes[..|dataTypes|] == dataTypes;
  }

  /** Every dumped record has exactly the columns of its kind's header list. */
  lemma ExportRowsKeys(r: Repo, kind: Kind)
    requires r.Valid()
    ensures forall row <- ExportRows(r, kind) :: row.Keys == set h <- ExportHeaders(kind)
  {
    var hs := set h <- ExportHeaders(kind);
    match kind
    case PersonKind =>
      assert hs == {"user_id", "name", "program_area_name"};
      DumpKeys(r.people, PersonToDict, hs);
    case CourseKind =>
      assert hs == {"course_id_portion", "short_name", "long_name", "program_area_name"};
      DumpKeys(r.courses, CourseToDict, hs);
    case TermKind =>
      assert hs == {"name", "term_id", "short_code"};
      DumpKeys(r.terms, TermToDict, hs);
    case AccountKind =>
      assert hs == {"account_id"};
      DumpKeys(r.accounts, AccountToDict, hs);
    case ProgramAreaKind =>
      assert hs == {"name"};
      DumpKeys(r.programAreas, ProgramAreaToDict, hs);
  }

  lemma DumpKeys<V>(m: OMap<V>, f: V -> Fields, hs: set<string>)
    requires m.Valid() && forall v :: f(v).Keys == hs
    ensures forall row <- MapValues(m, f).Values() :: row.Keys == hs
  {
  }

  /** One file per requested data type that has one, in request order. */
  lemma {:induction false} ExportFoldFiles(r: Repo, dataTypes: seq<string>)
    requires r.Valid()
    ensures forall f :: f in ExportFold(r, dataTypes) <==> exists t <- dataTypes :: ExportTable(r, t) == Some(f)
  {
    if dataTypes != [] {
      var n := |dataTypes| - 1;
      ExportFoldFiles(r, dataTypes[..n]);
      assert dataTypes == dataTypes[..n] + [dataTypes[n]];
      forall f ensures f in ExportFold(r, dataTypes) <==> exists t <- dataTypes :: ExportTable(r, t) == Some(f) {
        if exists t <- dataTypes :: ExportTable(r, t) == Some(f) {
          var t :| t in dataTypes && ExportTable(r, t) == Some(f);
          if t != dataTypes[n] {
            assert t in dataTypes[..n];
          }
        }
      }
    }
  }

  // ---------------------------------------------------------------------
  // generate_csv_files

  /** A row of `courses.csv`. */
  datatype CanvasCourse = CanvasCourse(
    courseId: string, shortName: string, longName: string, accountId: string,
    termId: string, status: string, startDate: string, endDate: string)

  /** A row of `sections.csv`. */
  datatype CanvasSection = CanvasSection(
    sectionId: string, courseId: string, name: string, status: string, startDate: string, endDate: string)

  /** A row of `enrollments.csv`. */
  datatype CanvasEnrollment = CanvasEnrollment(
    courseId: string, sectionId: string, userId: string, role: string, status: string)

  /** The rows of the three files. */
  datatype Generated = Generated(courses: seq<CanvasCourse>, sections: seq<CanvasSection>,
                                 enrollments: seq<CanvasEnrollment>)

  datatype GenerateError = NoSections

  const CourseHeaders: seq<string> :=
    ["course_id", "short_name", "long_name", "account_id", "term_id", "status", "start_date", "end_date"]
  const SectionHeaders: seq<string> := ["section_id", "course_id", "name", "status", "start_date", "end_date"]
  const EnrollmentHeaders: seq<string> := ["course_id", "section_id", "user_id", "role", "status"]

  function Concat(a: Generated, b: Generated): Generated {
    Generated(a.courses + b.courses, a.sections + b.sections, a.enrollments + b.enrollments)
  }

  /** `enrollment_roles.get(role, role)`: a display name becomes its Canvas role; anything else passes through. */
  function Translate(roles: OMap<string>, role: string): (r: string)
    ensures role in roles.entries ==> r == roles.entries[role]
    ensures role !in roles.entries ==> r == role
  {
    roles.Get(role).GetOr(role)
  }

  /** `f"{portion}-{short_code}-{number}"`: the portion, the term's short code and the number, joined by hyphens. */
  function CourseId(s: Section, t: Term): (id: string)
    ensures |id| == |s.courseIdPortion| + |t.shortCode| + |s.sectionNumber| + 2
    ensures id[..|s.courseIdPortion|] == s.courseIdPortion && id[|s.courseIdPortion|] == '-'
    ensures id[|s.courseIdPortion| + 1..|s.courseIdPortion| + 1 + |t.shortCode|] == t.shortCode
    ensures id[|id| - |s.sectionNumber| - 1] == '-' && id[|id| - |s.sectionNumber|..] == s.sectionNumber
  {
    s.courseIdPortion + "-" + t.shortCode + "-" + s.sectionNumber
  }

  /** `f"{short_code}-{portion}-{number}"`: the course id with the portion and the short code swapped. */
  function SectionId(s: Section, t: Term): (id: string)
    ensures |id| == |CourseId(s, t)|
    ensures id[..|t.shortCode|] == t.shortCode && id[|t.shortCode|] == '-'
    ensures id[|t.shortCode| + 1..|t.shortCode| + 1 + |s.courseIdPortion|] == s.courseIdPortion
    ensures id[|id| - |s.sectionNumber| - 1] == '-' && id[|id| - |s.sectionNumber|..] == s.sectionNumber
  {
    t.shortCode + "-" + s.courseIdPortion + "-" + s.sectionNumber
  }

  /** The course and the term a section names, when both are stored. */
  function Resolve(r: Repo, s: Section): Option<(Course, Term)> {
    match (r.courses.Get(s.courseIdPortion), if s.termName.Some? then r.terms.Get(s.termName.value) else None)
    case (Some(c), Some(t)) => Some((c, t))
    case _ => None
  }

  /** One enrollment row per enrollment of the section, in order. */
  function EnrollmentRows(r: Repo, s: Section, courseId: string, sectionId: string): (es: seq<CanvasEnrollment>)
    ensures |es| == |s.enrollments|
  {
    seq(|s.enrollments|, i requires 0 <= i < |s.enrollments| =>
      CanvasEnrollment(courseId, sectionId, s.enrollments[i].userId,
                       Translate(r.enrollmentRoles, s.enrollments[i].role), s.enrollments[i].status))
  }

  /**
    The rows one section contributes: none when its course or its term is
    missing; otherwise one course row and one section row that share the
    course id, long name, status and dates, and one enrollment row per
    enrollment pointing at both.
  */
  function Contribution(r: Repo, s: Section): (g: Generated)
    ensures Resolve(r, s).None? ==> g == Generated([], [], [])
    ensures Resolve(r, s).Some? ==>
              var (c, t) := Resolve(r, s).value;
              && |g.courses| == 1 && |g.sections| == 1 && |g.enrollments| == |s.enrollments|
              && g.courses[0].courseId == CourseId(s, t) && g.sections[0].courseId == CourseId(s, t)
              && g.sections[0].sectionId == SectionId(s, t)
              && g.courses[0].longName == c.longName + "-" + s.sectionNumber
              && g.sections[0].name == g.courses[0].longName
              && g.courses[0].shortName == c.shortName && g.courses[0].termId == t.termId
              && g.courses[0].accountId == s.accountId
              && g.courses[0].status == s.status && g.sections[0].status == s.status
              && g.courses[0].startDate == s.startDate && g.sections[0].startDate == s.startDate
              && g.courses[0].endDate == s.endDate && g.sections[0].endDate == s.endDate
              && forall e <- g.enrollments :: e.courseId == CourseId(s, t) && e.sectionId == SectionId(s, t)
  {
    match Resolve(r, s)
    case None => Generated([], [], [])
    case Some((c, t)) =>
      var courseId := CourseId(s, t);
      var sectionId := SectionId(s, t);
      var longName := c.longName + "-" + s.sectionNumber;
      Generated(
        [CanvasCourse(courseId, c.shortName, longName, s.accountId, t.termId, s.status, s.startDate, s.endDate)],
        [CanvasSection(sectionId, courseId, longName, s.status, s.startDate, s.endDate)],
        EnrollmentRows(r, s, courseId, sectionId))
  }

  /** The rows of the three files for the sections, in section order: at most one course and one section row each. */
  function CanvasFold(r: Repo, ss: seq<Section>): (g: Generated)
    ensures |g.courses| == |g.sections| <= |ss|
  {
    if ss == [] then Generated([], [], [])
    else Concat(CanvasFold(r, ss[..|ss| - 1]), Contribution(r, ss[|ss| - 1]))
  }

  /** The loop of `generate_csv_files` over the sections. */
  method BuildCanvasRows(r: Repo, ss: seq<Section>) returns (g: Generated)
    ensures g == CanvasFold(r, ss)
  {
    g := Generated([], [], []);
    assert ss[..0] == [];
    for i := 0 to |ss|
      invariant g == CanvasFold(r, ss[..i])
    {
      assert ss[..i + 1][..i] == ss[..i];
      g := AppendSection(r, g, ss[i]);
    }
    assert ss[..|ss|] == ss;
  }

  /** One pass of that loop: a section's course and section rows, then the inner loop over its enrollments. */
  method AppendSection(r: Repo, g0: Generated, s: Section) returns (g: Generated)
    ensures g == Concat(g0, Contribution(r, s))
  {
    g := g0;
    var course := r.courses.Get(s.courseIdPortion);
    var term := if s.termName.Some? then r.terms.Get(s.termName.value) else None;
    if course.None? || term.None? {
      return;
    }
    var c, t := course.value, term.value;
    var courseId := s.courseIdPortion + "-" + t.shortCode + "-" + s.sectionNumber;
    var sectionId := t.shortCode + "-" + s.courseIdPortion + "-" + s.sectionNumber;
    var longName := c.longName + "-" + s.sectionNumber;
    g := g.(courses := g.courses + [CanvasCourse(courseId, c.shortName, longName, s.accountId, t.termId,
                                                   s.status, s.startDate, s.endDate)],
            sections := g.sections + [CanvasSection(sectionId, courseId, longName, s.status,
                                                    s.startDate, s.endDate)]);
    var courses, sections := g.courses, g.sections;
    ghost var rows := EnrollmentRows(r, s, courseId, sectionId);
    for j := 0 to |s.enrollments|
      invariant g.courses == courses && g.sections == sections
      invariant g.enrollments == g0.enrollments + rows[..j]
    {
      var e := s.enrollments[j];
      var exportRole := r.enrollmentRoles.Get(e.role).GetOr(e.role);
      g := g.(enrollments := g.enrollments + [CanvasEnrollment(courseId, sectionId, e.userId, exportRole, e.status)]);
      assert rows[..j + 1] == rows[..j] + [rows[j]];
    }
    assert rows[..|s.enrollments|] == rows;
  }

  const BaseNames: seq<string> := ["courses.csv", "sections.csv", "enrollments.csv"]

  /** The files' names: the base names, with `"{prefix} "` in front when a prefix is given. */
  function FileNames(prefix: string): (names: seq<string>)
    ensures |names| == 3
    ensures prefix == "" ==> names == BaseNames
    ensures prefix != "" ==> forall i | 0 <= i < 3 ::
              |prefix| + 1 <= |names[i]| && names[i][..|prefix| + 1] == prefix + " " && names[i][|prefix| + 1..] == BaseNames[i]
  {
    var p := if prefix == "" then "" else prefix + " ";
    var names := seq(3, i requires 0 <= i < 3 => p + BaseNames[i]);
    assert forall i | 0 <= i < 3 :: names[i][..|p|] == p && names[i][|p|..] == BaseNames[i];
    names
  }

  /** `generate_csv_files(directory, prefix)`: the three files, or a refusal when there are no sections. */
  function Generate(r: Repo, prefix: string): (res: Result<seq<CsvFile>, GenerateError>)
    ensures res.Failure? <==> r.sections == []
    ensures res.Success? ==> |res.value| == 3 && forall i | 0 <= i < 3 :: res.value[i].name == FileNames(prefix)[i]
    ensures res.Success? ==>
      && res.value[0].headers == CourseHeaders && res.value[1].headers == SectionHeaders
      && res.value[2].headers == EnrollmentHeaders
    ensures res.Success? ==> var g := CanvasFold(r, r.sections);
      && |res.value[0].rows| == |g.courses| && |res.value[1].rows| == |g.sections|
      && |res.value[2].rows| == |g.enrollments|
      && (forall i | 0 <= i < |g.courses| :: res.value[0].rows[i] == CourseRow(g.courses[i]))
      && (forall i | 0 <= i < |g.sections| :: res.value[1].rows[i] == SectionRow(g.sections[i]))
      && (forall i | 0 <= i < |g.enrollments| :: res.value[2].rows[i] == EnrollmentRow(g.enrollments[i]))
      && |res.value[0].rows| == |res.value[1].rows| <= |r.sections|
  {
    if r.sections == [] then Failure(NoSections)
    else
      var g := CanvasFold(r, r.sections);
      var names := FileNames(prefix);
      Success([CsvFile(names[0], CourseHeaders, RowsOf(g.courses, CourseRow)),
               CsvFile(names[1], SectionHeaders, RowsOf(g.sections, SectionRow)),
               CsvFile(names[2], EnrollmentHeaders, RowsOf(g.enrollments, EnrollmentRow))])
  }

  /** `writer.writerows(...)` on the generated records: one row per record, in order. */
  function RowsOf<T>(xs: seq<T>, row: T -> Fields): (rows: seq<Fields>)
    ensures |rows| == |xs| && forall i | 0 <= i < |xs| :: rows[i] == row(xs[i])
  {
    seq(|xs|, i requires 0 <= i < |xs| => row(xs[i]))
  }

  function CourseRow(c: CanvasCourse): (row: Fields)
    ensures row.Keys == set h <- CourseHeaders
  {
    map["course_id" := c.courseId, "short_name" := c.shortName, "long_name" := c.longName,
        "account_id" := c.accountId, "term_id" := c.termId, "status" := c.status,
        "start_date" := c.startDate, "end_date" := c.endDate]
  }

  function SectionRow(s: CanvasSection): (row: Fields)
    ensures row.Keys == set h <- SectionHeaders
  {
    map["section_id" := s.sectionId, "course_id" := s.courseId, "name" := s.name, "status" := s.status,
        "start_date" := s.startDate, "end_date" := s.endDate]
  }

  function EnrollmentRow(e: CanvasEnrollment): (row: Fields)
    ensures row.Keys == set h <- EnrollmentHeaders
  {
    map["course_id" := e.courseId, "section_id" := e.sectionId, "user_id" := e.userId,
        "role" := e.role, "status" := e.status]
  }

  // ---------------------------------------------------------------------
  // Properties of the generated rows

  /** Row `i` of `courses.csv` and row `i` of `sections.csv` describe the same section. */
  predicate Paired(g: Generated) {
    && |g.courses| == |g.sections|
    && (forall i | 0 <= i < |g.courses| ::
          g.courses[i].courseId == g.sections[i].courseId && g.courses[i].longName == g.sections[i].name
          && g.courses[i].status == g.sections[i].status
          && g.courses[i].startDate == g.sections[i].startDate && g.courses[i].endDate == g.sections[i].endDate)
  }

  /** Every enrollment row names a section row, with that row's course. */
  predicate EnrollmentsAnchored(g: Generated) {
    forall e <- g.enrollments :: exists s <- g.sections :: s.sectionId == e.sectionId && s.courseId == e.courseId
  }

  /** The number of sections whose course and term are both stored. */
  function ResolvedCount(r: Repo, ss: seq<Section>): (n: nat)
    ensures n <= |ss|
  {
    if ss == [] then 0 else ResolvedCount(r, ss[..|ss| - 1]) + (if Resolve(r, ss[|ss| - 1]).Some? then 1 else 0)
  }

  /** The number of enrollments of the sections whose course and term are both stored. */
  function ResolvedEnrollmentCount(r: Repo, ss: seq<Section>): nat {
    if ss == [] then 0
    else ResolvedEnrollmentCount(r, ss[..|ss| - 1])
         + (if Resolve(r, ss[|ss| - 1]).Some? then |ss[|ss| - 1].enrollments| else 0)
  }

  /**
    Each section whose course and term are stored gives one course row,
    one section row and one row per enrollment; the others give nothing.
    The course and section rows pair up, and each enrollment row points at
    a section row.
  */
  lemma {:induction false} CanvasFoldShape(r: Repo, ss: seq<Section>)
    ensures var g := CanvasFold(r, ss);
      && |g.courses| == ResolvedCount(r, ss)
      && |g.enrollments| == ResolvedEnrollmentCount(r, ss)
      && Paired(g) && EnrollmentsAnchored(g)
  {
    if ss != [] {
      var n := |ss| - 1;
      CanvasFoldShape(r, ss[..n]);
      var prev := CanvasFold(r, ss[..n]);
      var c := Contribution(r, ss[n]);
      var g := CanvasFold(r, ss);
      assert g == Concat(prev, c);
      forall e <- g.enrollments ensures exists s <- g.sections :: s.sectionId == e.sectionId && s.courseId == e.courseId {
        if e in prev.enrollments {
          var s :| s in prev.sections && s.sectionId == e.sectionId && s.courseId == e.courseId;
          assert s in g.sections;
        } else {
          assert e in c.enrollments;
          assert c.sections[0] in g.sections;
        }
      }
    }
  }

  /** The rows of a list of sections are the rows of its parts, in order. */
  lemma {:induction false} CanvasFoldAppend(r: Repo, a: seq<Section>, b: seq<Section>)
    ensures CanvasFold(r, a + b) == Concat(CanvasFold(r, a), CanvasFold(r, b))
  {
    if b == [] {
      assert a + b == a;
    } else {
      var n := |b| - 1;
      CanvasFoldAppend(r, a, b[..n]);
      SplitLast(a, b);
      CanvasFoldSnoc(r, a + b[..n], b[n]);
      CanvasFoldSnoc(r, b[..n], b[n]);
      ConcatAssoc(CanvasFold(r, a), CanvasFold(r, b[..n]), Contribution(r, b[n]));
    }
  }

  lemma SplitLast<T>(a: seq<T>, b: seq<T>)
    requires b != []
    ensures a + b == (a + b[..|b| - 1]) + [b[|b| - 1]]
    ensures b == b[..|b| - 1] + [b[|b| - 1]]
  {
  }

  lemma CanvasFoldSnoc(r: Repo, ss: seq<Section>, s: Section)
    ensures CanvasFold(r, ss + [s]) == Concat(CanvasFold(r, ss), Contribution(r, s))
  {
    assert (ss + [s])[..|ss|] == ss;
  }

  lemma ConcatAssoc(x: Generated, y: Generated, z: Generated)
    ensures Concat(Concat(x, y), z) == Concat(x, Concat(y, z))
  {
    assert x.courses + y.courses + z.courses == x.courses + (y.courses + z.courses);
    assert x.sections + y.sections + z.sections == x.sections + (y.sections + z.sections);
    assert x.enrollments + y.enrollments + z.enrollments == x.enrollments + (y.enrollments + z.enrollments);
  }

  /** Each enrollment row carries the Canvas role its display role maps to, or the role itself. */
  lemma EnrollmentRolesTranslated(r: Repo, s: Section)
    requires Resolve(r, s).Some?
    ensures forall i | 0 <= i < |s.enrollments| ::
              var row := Contribution(r, s).enrollments[i];
              && row.userId == s.enrollments[i].userId
              && row.status == s.enrollments[i].status
              && (s.enrollments[i].role in r.enrollmentRoles.entries ==>
                    row.role == r.enrollmentRoles.entries[s.enrollments[i].role])
              && (s.enrollments[i].role !in r.enrollmentRoles.entries ==> row.role == s.enrollments[i].role)
  {
  }

  /**
    The worked example: course CS101 "Intro to CS", term "Fall 2025" with
    short code FA25, section 01 and one Student enrollment.
  */
  lemma GenerateExample()
    ensures var course := Course("CS 101", "Intro to CS", "CS101", "");
      var term := Term("2025FA", "Fall 2025", "FA25");
      var sec := Section("CS101", Some("Fall 2025"), "ACC1", "01", "active", "", "",
                         [Enrollment("u1", "Student", "active")]);
      var r := EmptyRepo().(courses := Empty<Course>().Put("CS101", course),
                            terms := Empty<Term>().Put("Fall 2025", term));
      var g := Contribution(r, sec);
      && g.courses == [CanvasCourse("CS101-FA25-01", "CS 101", "Intro to CS-01", "ACC1", "2025FA", "active", "", "")]
      && g.sections == [CanvasSection("FA25-CS101-01", "CS101-FA25-01", "Intro to CS-01", "active", "", "")]
      && g.enrollments == [CanvasEnrollment("CS101-FA25-01", "FA25-CS101-01", "u1", "student", "active")]
  {
    var course := Course("CS 101", "Intro to CS", "CS101", "");
    var term := Term("2025FA", "Fall 2025", "FA25");
    var sec := Section("CS101", Some("Fall 2025"), "ACC1", "01", "active", "", "",
                       [Enrollment("u1", "Student", "active")]);
    var r := EmptyRepo().(courses := Empty<Course>().Put("CS101", course),
                          terms := Empty<Term>().Put("Fall 2025", term));
    assert Resolve(r, sec) == Some((course, term));
    assert CourseId(sec, term) == "CS101-FA25-01";
    assert SectionId(sec, term) == "FA25-CS101-01";
    assert course.longName + "-" + sec.sectionNumber == "Intro to CS-01";
    assert Translate(r.enrollmentRoles, "Student") == "student";
  }
}

/**
  Importing records and enrollment roles from CSV files
  (main.py:254-331). A parsed file is its header line and its rows; a row
  maps each header to its cell, and a cell that is missing or empty reads
  as "". Reading and decoding the file are not part of this model.
*/
module CsvImport {
  import opened Wrappers
  import opened OrderedMaps
  import opened Entities
  import opened Repository

  /** A parsed CSV file (`reader.fieldnames` and the rows of `csv.DictReader`). */
  datatype Table = Table(headers: seq<string>, rows: seq<Fields>)

  /** The two reports an import gives instead of counts. */
  datatype ImportError = MissingHeaders(required: seq<string>) | UnknownDataType(dataType: string)

  /** `{'added': …, 'skipped': …}` */
  datatype Counts = Counts(added: nat, skipped: nat)

  /** `{'added': …, 'updated': …}` of the role import */
  datatype RoleCounts = RoleCounts(added: nat, updated: nat)

  /** `row.get(h)`, with a missing cell read as "". */
  function Cell(row: Fields, h: string): string {
    Lookup(row, h, "")
  }

  /** Every required header is present in the file. */
  predicate HasHeaders(t: Table, required: seq<string>) {
    forall h <- required :: h in t.headers
  }

  /** No required cell of the row is blank. */
  predicate Complete(row: Fields, required: seq<string>) {
    forall h <- required :: Cell(row, h) != ""
  }

  /** The row carries the non-blank key `k` and every required cell. */
  predicate Offers(row: Fields, required: seq<string>, keyField: string, k: string) {
    k != "" && Cell(row, keyField) == k && Complete(row, required)
  }

  /** The row is added to `d`: its key is non-blank and new, and it is complete. */
  predicate Admits<V>(d: OMap<V>, row: Fields, required: seq<string>, keyField: string) {
    Offers(row, required, keyField, Cell(row, keyField)) && !d.Has(Cell(row, keyField))
  }

  /** Index of the first row offering key `k`, or -1. */
  function FirstOffer(rows: seq<Fields>, required: seq<string>, keyField: string, k: string): (j: int)
    ensures -1 <= j < |rows|
    ensures 0 <= j ==> Offers(rows[j], required, keyField, k)
    ensures forall i | 0 <= i < |rows| && (j < 0 || i < j) :: !Offers(rows[i], required, keyField, k)
  {
    if rows == [] then -1
    else
      var n := |rows| - 1;
      var j := FirstOffer(rows[..n], required, keyField, k);
      if 0 <= j then j
      else if Offers(rows[n], required, keyField, k) then n
      else -1
  }

  /**
    The dict and the counts after the rows of `_import_csv_data`, in file
    order. Every row is counted once, as added or skipped, and the added
    rows are appended to the key order after the keys already present.
  */
  function ImportFold<V>(rows: seq<Fields>, required: seq<string>, keyField: string, d: OMap<V>,
                         build: Fields -> V): (r: (OMap<V>, Counts))
    requires d.Valid()
    ensures r.0.Valid()
    ensures r.1.added + r.1.skipped == |rows|
    ensures |r.0.keys| == |d.keys| + r.1.added
    ensures d.keys <= r.0.keys
  {
    if rows == [] then (d, Counts(0, 0))
    else
      var n := |rows| - 1;
      var (m, c) := ImportFold(rows[..n], required, keyField, d, build);
      var row := rows[n];
      if Admits(m, row, required, keyField) then
        assert m.keys <= m.keys + [Cell(row, keyField)];
        (m.Put(Cell(row, keyField), build(row)), c.(added := c.added + 1))
      else (m, c.(skipped := c.skipped + 1))
  }

  /** One more row extends the fold by that row's step. */
  lemma ImportFoldLast<V>(rows: seq<Fields>, required: seq<string>, keyField: string, d: OMap<V>,
                          build: Fields -> V, i: nat)
    requires d.Valid() && i < |rows|
    ensures var (m, c) := ImportFold(rows[..i], required, keyField, d, build);
      ImportFold(rows[..i + 1], required, keyField, d, build)
        == if Admits(m, rows[i], required, keyField)
           then (m.Put(Cell(rows[i], keyField), build(rows[i])), c.(added := c.added + 1))
           else (m, c.(skipped := c.skipped + 1))
  {
    assert rows[..i + 1][..i] == rows[..i];
  }

  /** The loop of `_import_csv_data`: skip blank, known or incomplete rows, add the others. */
  method ImportRows<V>(rows: seq<Fields>, required: seq<string>, keyField: string, d: OMap<V>,
                       build: Fields -> V) returns (m: OMap<V>, counts: Counts)
    requires d.Valid()
    ensures (m, counts) == ImportFold(rows, required, keyField, d, build)
  {
    m, counts := d, Counts(0, 0);
    assert rows[..0] == [];
    for i := 0 to |rows|
      invariant (m, counts) == ImportFold(rows[..i], required, keyField, d, build)
    {
      ImportFoldLast(rows, required, keyField, d, build, i);
      var row := rows[i];
      var key := Cell(row, keyField);
      if key == "" || m.Has(key) {
        counts := counts.(skipped := counts.skipped + 1);
        continue;
      }
      if !Complete(row, required) {
        counts := counts.(skipped := counts.skipped + 1);
        continue;
      }
      m := m.Put(key, build(row));
      counts := counts.(added := counts.added + 1);
    }
    assert rows[..|rows|] == rows;
  }

  /**
    `_import_csv_data` on a parsed file. A file without every required
    header is refused with the list of required headers. Otherwise every row
    is counted once, as added or skipped; the records already there keep
    their values and their place at the front of the key order; and the keys
    afterwards are the old keys plus the keys the rows offer, a new key
    holding the record built from the first complete row that carries it.
  */
  function ImportCsv<V>(t: Table, required: seq<string>, keyField: string, d: OMap<V>,
                        build: Fields -> V): (r: Result<(OMap<V>, Counts), ImportError>)
    requires d.Valid()
    ensures r.Failure? <==> !HasHeaders(t, required)
    ensures r.Failure? ==> r.error == MissingHeaders(required)
    ensures r.Success? ==> var (m, c) := r.value;
      && m.Valid()
      && c.added + c.skipped == |t.rows|
      && |m.keys| == |d.keys| + c.added
      && d.keys <= m.keys
      && (forall k | k in d.entries :: m.entries[k] == d.entries[k])
      && (forall k :: k in m.entries <==> k in d.entries || 0 <= FirstOffer(t.rows, required, keyField, k))
      && (forall k | k in m.entries && k !in d.entries ::
            m.entries[k] == build(t.rows[FirstOffer(t.rows, required, keyField, k)]))
  {
    if !HasHeaders(t, required) then Failure(MissingHeaders(required))
    else
      ImportFoldEntries(t.rows, required, keyField, d, build);
      Success(ImportFold(t.rows, required, keyField, d, build))
  }

  /**
    An import never overwrites a record: the keys afterwards are the old
    keys plus the keys the rows offer, and a new key holds the record built
    from the first row that offered it.
  */
  lemma {:induction false} ImportFoldEntries<V>(rows: seq<Fields>, required: seq<string>, keyField: string,
                                                d: OMap<V>, build: Fields -> V)
    requires d.Valid()
    ensures var m := ImportFold(rows, required, keyField, d, build).0;
      forall k :: k in m.entries <==> k in d.entries || 0 <= FirstOffer(rows, required, keyField, k)
    ensures var m := ImportFold(rows, required, keyField, d, build).0;
      forall k | k in d.entries :: m.entries[k] == d.entries[k]
    ensures var m := ImportFold(rows, required, keyField, d, build).0;
      forall k | k in m.entries && k !in d.entries ::
        m.entries[k] == build(rows[FirstOffer(rows, required, keyField, k)])
  {
    if rows != [] {
      var n := |rows| - 1;
      ImportFoldEntries(rows[..n], required, keyField, d, build);
      var prev := ImportFold(rows[..n], required, keyField, d, build).0;
      var m := ImportFold(rows, required, keyField, d, build).0;
      var row := rows[n];
      var key := Cell(row, keyField);
      if Admits(prev, row, required, keyField) {
        assert m.entries == prev.entries[key := build(row)];
        assert FirstOffer(rows, required, keyField, key) == n;
      } else {
        assert m == prev;
      }
      forall k | k != key
        ensures FirstOffer(rows, required, keyField, k) == FirstOffer(rows[..n], required, keyField, k)
      {
      }
    }
  }

  // ---------------------------------------------------------------------
  // The five importers and the dispatcher

  /** The headers each importer requires (main.py:295-309). */
  function RequiredHeaders(kind: Kind): (hs: seq<string>)
    ensures KeyField(kind) in hs
    ensures forall h <- hs :: h in DialogFields(kind) && h != "program_area_name"
  {
    match kind
    case PersonKind => ["user_id", "name"]
    case CourseKind => ["course_id_portion", "short_name", "long_name"]
    case TermKind => ["name", "term_id", "short_code"]
    case AccountKind => ["account_id"]
    case ProgramAreaKind => ["name"]
  }

  /** `importer_map`: the data types the dispatcher knows. */
  function KindOf(dataType: string): (k: Option<Kind>)
    ensures k.Some? <==> dataType in ["people", "courses", "terms", "accounts", "program_areas"]
  {
    if dataType == "people" then Some(PersonKind)
    else if dataType == "courses" then Some(CourseKind)
    else if dataType == "terms" then Some(TermKind)
    else if dataType == "accounts" then Some(AccountKind)
    else if dataType == "program_areas" then Some(ProgramAreaKind)
    else None
  }

  /**
    The importer of one kind (`import_people_from_csv` and its siblings) on
    the store `r`. It fails exactly when a required header is missing, and
    then reports them; a successful import keeps every key of its kind and
    changes no other kind, no section and no role.
  */
  function ImportKind(r: Repo, kind: Kind, t: Table): (res: Result<(Repo, Counts), ImportError>)
    requires r.Valid()
    ensures res.Failure? <==> !HasHeaders(t, RequiredHeaders(kind))
    ensures res.Failure? ==> res.error == MissingHeaders(RequiredHeaders(kind))
    ensures res.Success? ==>
              var r' := res.value.0;
              && r'.Valid()
              && r'.sections == r.sections && r'.enrollmentRoles == r.enrollmentRoles
              && (kind != PersonKind ==> r'.people == r.people)
              && (kind != CourseKind ==> r'.courses == r.courses)
              && (kind != TermKind ==> r'.terms == r.terms)
              && (kind != AccountKind ==> r'.accounts == r.accounts)
              && (kind != ProgramAreaKind ==> r'.programAreas == r.programAreas)
              && (forall k | HasKey(r, kind, k) :: HasKey(r', kind, k))
  {
    var required := RequiredHeaders(kind);
    var key := KeyField(kind);
    match kind
    case PersonKind =>
      (match ImportCsv(t, required, key, r.people, PersonFromArgs)
       case Failure(e) => Failure(e)
       case Success((m, c)) => Success((r.(people := m), c)))
    case CourseKind =>
      (match ImportCsv(t, required, key, r.courses, CourseFromArgs)
       case Failure(e) => Failure(e)
       case Success((m, c)) => Success((r.(courses := m), c)))
    case TermKind =>
      (match ImportCsv(t, required, key, r.terms, TermFromArgs)
       case Failure(e) => Failure(e)
       case Success((m, c)) => Success((r.(terms := m), c)))
    case AccountKind =>
      (match ImportCsv(t, required, key, r.accounts, AccountFromArgs)
       case Failure(e) => Failure(e)
       case Success((m, c)) => Success((r.(accounts := m), c)))
    case ProgramAreaKind =>
      (match ImportCsv(t, required, key, r.programAreas, ProgramAreaFromArgs)
       case Failure(e) => Failure(e)
       case Success((m, c)) => Success((r.(programAreas := m), c)))
  }

  /**
    `import_from_csv_file(path, data_type)` on the store `r`: an unknown data
    type is reported as such, a known one whose required headers are missing
    as missing headers.
  */
  function ImportInto(r: Repo, dataType: string, t: Table): (res: Result<(Repo, Counts), ImportError>)
    requires r.Valid()
    ensures res == Failure(UnknownDataType(dataType)) <==>
              dataType !in ["people", "courses", "terms", "accounts", "program_areas"]
    ensures res.Failure? && res.error.MissingHeaders? <==>
              KindOf(dataType).Some? && !HasHeaders(t, RequiredHeaders(KindOf(dataType).value))
    ensures res.Success? ==> res.value.0.Valid()
  {
    match KindOf(dataType)
    case None => Failure(UnknownDataType(dataType))
    case Some(kind) => ImportKind(r, kind, t)
  }

  /**
    Importing terms, accounts or program areas keeps a consistent store
    consistent: an import only adds records, and these carry no references.
  */
  lemma ImportKeepsConsistent(r: Repo, kind: Kind, t: Table)
    requires r.Valid() && Consistent(r)
    requires kind in {TermKind, AccountKind, ProgramAreaKind}
    requires ImportKind(r, kind, t).Success?
    ensures Consistent(ImportKind(r, kind, t).value.0)
  {
    var r' := ImportKind(r, kind, t).value.0;
    forall s <- r'.sections ensures SectionResolves(r', s) {
      assert SectionResolves(r, s);
    }
  }

  lemma UpperOfSample()
    ensures Upper("cs101") == "CS101"
  {
    var u := Upper("cs101");
    assert |u| == 5;
    assert u[0] == 'C' && u[1] == 'S' && u[2] == '1' && u[3] == '0' && u[4] == '1';
  }

  /** A one-row courses file whose course-id portion is lower-case. */
  const SampleCourseRow: Fields := map["course_id_portion" := "cs101", "short_name" := "CS 101", "long_name" := "Intro to CS"]
  const SampleCourseTable: Table := Table(["course_id_portion", "short_name", "long_name"], [SampleCourseRow])

  const SampleCourse: Course := Course("CS 101", "Intro to CS", "CS101", "")

  lemma SampleCourseBuilt()
    ensures CourseFromArgs(SampleCourseRow) == SampleCourse
  {
    UpperOfSample();
  }

  lemma SampleCourseFold()
    ensures ImportFold([SampleCourseRow], RequiredHeaders(CourseKind), "course_id_portion", EmptyRepo().courses, CourseFromArgs)
            == (OMap(["cs101"], map["cs101" := SampleCourse]), Counts(1, 0))
  {
    var rows := [SampleCourseRow];
    var required := RequiredHeaders(CourseKind);
    var none := EmptyRepo().courses;
    assert rows[..0] == [];
    assert ImportFold(rows[..0], required, "course_id_portion", none, CourseFromArgs) == (none, Counts(0, 0));
    assert Complete(SampleCourseRow, required);
    assert Admits(none, SampleCourseRow, required, "course_id_portion");
    var built := CourseFromArgs(SampleCourseRow);
    assert ImportFold(rows, required, "course_id_portion", none, CourseFromArgs) == (none.Put("cs101", built), Counts(1, 0));
    SampleCourseBuilt();
    assert none.Put("cs101", built).keys == ["cs101"];
    assert none.Put("cs101", built).entries == map["cs101" := SampleCourse];
  }

  /**
    A course is stored under the portion exactly as the file spells it,
    while the course itself holds the upper-cased portion.
  */
  lemma ImportedCourseKeepsRawKey()
    ensures var r := ImportInto(EmptyRepo(), "courses", SampleCourseTable);
      && r.Success? && r.value.1 == Counts(1, 0)
      && r.value.0.courses.keys == ["cs101"]
      && r.value.0.courses.Get("cs101") == Some(SampleCourse)
  {
    SampleCourseFold();
    assert HasHeaders(SampleCourseTable, RequiredHeaders(CourseKind));
    assert ImportInto(EmptyRepo(), "courses", SampleCourseTable) == ImportKind(EmptyRepo(), CourseKind, SampleCourseTable);
  }

  // ---------------------------------------------------------------------
  // import_roles_from_csv (main.py:311-331)

  const RoleHeaders: seq<string> := ["display_name", "canvas_role"]

  /** The row names a display name and a Canvas role, both non-blank. */
  predicate RoleRow(row: Fields) {
    Cell(row, "display_name") != "" && Cell(row, "canvas_role") != ""
  }

  /** Index of the last role row for display name `name`, or -1. */
  function LastRole(rows: seq<Fields>, name: string): (j: int)
    ensures -1 <= j < |rows|
    ensures 0 <= j ==> RoleRow(rows[j]) && Cell(rows[j], "display_name") == name
    ensures forall i | j < i < |rows| :: !(RoleRow(rows[i]) && Cell(rows[i], "display_name") == name)
  {
    if rows == [] then -1
    else
      var n := |rows| - 1;
      if RoleRow(rows[n]) && Cell(rows[n], "display_name") == name then n
      else LastRole(rows[..n], name)
  }

  /** The number of role rows. */
  function RoleRowCount(rows: seq<Fields>): (c: nat)
    ensures c <= |rows|
  {
    if rows == [] then 0
    else RoleRowCount(rows[..|rows| - 1]) + (if RoleRow(rows[|rows| - 1]) then 1 else 0)
  }

  /**
    The role map and counts after the rows, in file order. Each row with
    both fields is counted once, as added or updated, and the other rows are
    not counted; new display names are appended to the key order.
  */
  function RolesFold(rows: seq<Fields>, roles: OMap<string>): (r: (OMap<string>, RoleCounts))
    requires roles.Valid()
    ensures r.0.Valid()
    ensures r.1.added + r.1.updated == RoleRowCount(rows)
    ensures |r.0.keys| == |roles.keys| + r.1.added
    ensures roles.keys <= r.0.keys
  {
    if rows == [] then (roles, RoleCounts(0, 0))
    else
      var n := |rows| - 1;
      var (m, c) := RolesFold(rows[..n], roles);
      var row := rows[n];
      if !RoleRow(row) then (m, c)
      else
        var name := Cell(row, "display_name");
        var c' := if m.Has(name) then c.(updated := c.updated + 1) else c.(added := c.added + 1);
        assert m.keys <= m.keys + [name];
        (m.Put(name, Cell(row, "canvas_role")), c')
  }

  /** The loop of `import_roles_from_csv`. */
  method ImportRoleRows(rows: seq<Fields>, roles: OMap<string>) returns (m: OMap<string>, counts: RoleCounts)
    requires roles.Valid()
    ensures (m, counts) == RolesFold(rows, roles)
  {
    m, counts := roles, RoleCounts(0, 0);
    assert rows[..0] == [];
    for i := 0 to |rows|
      invariant (m, counts) == RolesFold(rows[..i], roles)
    {
      assert rows[..i + 1][..i] == rows[..i];
      var displayName := Cell(rows[i], "display_name");
      var canvasRole := Cell(rows[i], "canvas_role");
      if displayName != "" && canvasRole != "" {
        if m.Has(displayName) {
          counts := counts.(updated := counts.updated + 1);
        } else {
          counts := counts.(added := counts.added + 1);
        }
        m := m.Put(displayName, canvasRole);
      }
    }
    assert rows[..|rows|] == rows;
  }

  /** `import_roles_from_csv` on a parsed file. */
  function ImportRoles(t: Table, roles: OMap<string>): (r: Result<(OMap<string>, RoleCounts), ImportError>)
    requires roles.Valid()
    ensures r.Failure? <==> !HasHeaders(t, RoleHeaders)
    ensures r.Failure? ==> r.error == MissingHeaders(RoleHeaders)
    ensures r.Success? ==> r.value == RolesFold(t.rows, roles)
  {
    if !HasHeaders(t, RoleHeaders) then Failure(MissingHeaders(RoleHeaders))
    else Success(RolesFold(t.rows, roles))
  }

  /**
    Afterwards a display name maps to the Canvas role of the last row that
    names it (an upsert), and every other display name keeps its role.
  */
  lemma {:induction false} RolesFoldEntries(rows: seq<Fields>, roles: OMap<string>)
    requires roles.Valid()
    ensures var m := RolesFold(rows, roles).0;
      forall k :: k in m.entries <==> k in roles.entries || 0 <= LastRole(rows, k)
    ensures var m := RolesFold(rows, roles).0;
      forall k | k in m.entries ::
        m.entries[k] == if 0 <= LastRole(rows, k) then Cell(rows[LastRole(rows, k)], "canvas_role") else roles.entries[k]
  {
    if rows != [] {
      var n := |rows| - 1;
      RolesFoldEntries(rows[..n], roles);
      var prev := RolesFold(rows[..n], roles).0;
      var m := RolesFold(rows, roles).0;
      var row := rows[n];
      var name := Cell(row, "display_name");
      if RoleRow(row) {
        assert m.entries == prev.entries[name := Cell(row, "canvas_role")];
      } else {
        assert m == prev;
      }
      forall k | k in m.entries
        ensures m.entries[k] ==
                  if 0 <= LastRole(rows, k) then Cell(rows[LastRole(rows, k)], "canvas_role") else roles.entries[k]
      {
        if !(RoleRow(row) && k == name) {
          assert LastRole(rows, k) == LastRole(rows[..n], k);
          assert k in prev.entries && m.entries[k] == prev.entries[k];
        }
      }
      forall k | !(RoleRow(row) && k == name) ensures LastRole(rows, k) == LastRole(rows[..n], k) {
      }
    }
  }
}

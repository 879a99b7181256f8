/**
  `DataManager` (main.py:161-404) as a class whose fields are its seven
  collections, together with the integrity-checked operations the UI
  handlers run on it (main.py:934-948, 953-1119, 1230-1275, 1656-1692).
  Reading and writing files is replaced by values: a load takes the parsed
  document (or none), a save returns the document it would write, the
  importers take parsed tables, the exporters return the files.
*/
module Manager {
  import opened Wrappers
  import opened OrderedMaps
  import opened Entities
  import opened Repository
  import opened Persistence
  import opened CsvImport
  import opened CsvExport
  import BatchDelete

  class DataManager {
    var people: OMap<Person>
    var courses: OMap<Course>
    var terms: OMap<Term>
    var accounts: OMap<Account>
    var programAreas: OMap<ProgramArea>
    var enrollmentRoles: OMap<string>
    var sections: seq<Section>

    /** The collections as one value. */
    function State(): Repo
      reads this
    {
      Repo(people, courses, terms, accounts, programAreas, enrollmentRoles, sections)
    }

    ghost predicate Valid()
      reads this
    {
      State().Valid()
    }

    /**
      `__init__`: empty collections, then `load_data`. A document whose
      records lack a required field leaves the initial empty collections.
    */
    constructor (stored: Option<Document>)
      requires stored.Some? ==> stored.value.Valid()
      ensures Valid()
      ensures Loaded(stored).Success? ==> State() == Loaded(stored).value
      ensures Loaded(stored).Failure? ==> State() == Repo(Empty(), Empty(), Empty(), Empty(), Empty(), Empty(), [])
    {
      people, courses, terms, accounts, programAreas := Empty(), Empty(), Empty(), Empty(), Empty();
      enrollmentRoles, sections := Empty(), [];
      new;
      var _ := LoadData(stored);
    }

    /**
      `load_data`: no readable document gives the empty store; a document
      whose records all read replaces every collection.
    */
    method LoadData(stored: Option<Document>) returns (ok: bool)
      requires Valid()
      requires stored.Some? ==> stored.value.Valid()
      modifies this
      ensures Valid()
      ensures ok <==> Loaded(stored).Success?
      ensures ok ==> State() == Loaded(stored).value
      ensures !ok ==> State() == old(State())
    {
      if stored.None? {
        InitializeEmpty();
        return true;
      }
      var res := ReadDocument(stored.value);
      assert res == Loaded(stored);
      if res.Failure? {
        return false;
      }
      Replace(res.value);
      ok := true;
    }

    /** Every collection is replaced by the loaded one. */
    method Replace(v: Repo)
      requires v.Valid()
      modifies this
      ensures Valid() && State() == v
    {
      people, courses, programAreas, terms, accounts := v.people, v.courses, v.programAreas, v.terms, v.accounts;
      sections, enrollmentRoles := v.sections, v.enrollmentRoles;
    }

    /** `initialize_empty` */
    method InitializeEmpty()
      modifies this
      ensures Valid() && State() == EmptyRepo()
    {
      Replace(EmptyRepo());
    }

    /** `save_data`: the document it writes. */
    method SaveData() returns (doc: Document)
      requires Valid()
      ensures doc == Save(State())
    {
      doc := Save(State());
    }

    /**
      `clear_all`: the store is emptied; the result reports whether the
      data file, if there was one, could be removed.
    */
    method ClearAll(removeFailed: bool) returns (ok: bool)
      modifies this
      ensures Valid() && State() == EmptyRepo()
      ensures ok == !removeFailed
    {
      InitializeEmpty();
      ok := !removeFailed;
    }

    // -------------------------------------------------------------------
    // Import and export

    /** `import_from_csv_file(path, data_type)` on a parsed file. */
    method ImportFromCsvFile(dataType: string, t: Table) returns (res: Result<Counts, ImportError>)
      requires Valid()
      modifies this
      ensures Valid()
      ensures var expected := ImportInto(old(State()), dataType, t);
        && (expected.Success? ==> State() == expected.value.0 && res == Success(expected.value.1))
        && (expected.Failure? ==> State() == old(State()) && res == Failure(expected.error))
    {
      var kind := KindOf(dataType);
      if kind.None? {
        return Failure(UnknownDataType(dataType));
      }
      if !HasHeaders(t, RequiredHeaders(kind.value)) {
        return Failure(MissingHeaders(RequiredHeaders(kind.value)));
      }
      var counts := ImportKindRows(kind.value, t);
      res := Success(counts);
    }

    /** `_import_csv_data` into the collection of `kind`, once the headers are known to be present. */
    method ImportKindRows(kind: Kind, t: Table) returns (counts: Counts)
      requires Valid() && HasHeaders(t, RequiredHeaders(kind))
      modifies this
      ensures Valid()
      ensures ImportKind(old(State()), kind, t) == Success((State(), counts))
    {
      var required := RequiredHeaders(kind);
      var key := KeyField(kind);
      match kind {
        case PersonKind => people, counts := ImportRows(t.rows, required, key, people, PersonFromArgs);
        case CourseKind => courses, counts := ImportRows(t.rows, required, key, courses, CourseFromArgs);
        case TermKind => terms, counts := ImportRows(t.rows, required, key, terms, TermFromArgs);
        case AccountKind => accounts, counts := ImportRows(t.rows, required, key, accounts, AccountFromArgs);
        case ProgramAreaKind =>
          programAreas, counts := ImportRows(t.rows, required, key, programAreas, ProgramAreaFromArgs);
      }
    }

    /** `import_roles_from_csv` on a parsed file (the save it ends with is left out). */
    method ImportRolesFromCsv(t: Table) returns (res: Result<RoleCounts, ImportError>)
      requires Valid()
      modifies this
      ensures Valid()
      ensures var expected := ImportRoles(t, old(enrollmentRoles));
        && (expected.Success? ==>
              State() == old(State()).(enrollmentRoles := expected.value.0) && res == Success(expected.value.1))
        && (expected.Failure? ==> State() == old(State()) && res == Failure(expected.error))
    {
      if !HasHeaders(t, RoleHeaders) {
        return Failure(MissingHeaders(RoleHeaders));
      }
      var counts;
      enrollmentRoles, counts := ImportRoleRows(t.rows, enrollmentRoles);
      res := Success(counts);
    }

    /** `export_data_to_csvs`: the files it writes, in request order. */
    method ExportDataToCsvs(dataTypes: seq<string>) returns (files: seq<CsvFile>)
      requires Valid()
      ensures files == ExportFold(State(), dataTypes)
    {
      files := ExportFiles(State(), dataTypes);
    }

    /** `generate_csv_files(directory, prefix)`: the three Canvas files, or a refusal. */
    method GenerateCsvFiles(prefix: string) returns (res: Result<seq<CsvFile>, GenerateError>)
      ensures res == Generate(State(), prefix)
    {
      if sections == [] {
        return Failure(NoSections);
      }
      var g := BuildCanvasRows(State(), sections);
      var names := FileNames(prefix);
      res := Success([CsvFile(names[0], CourseHeaders, RowsOf(g.courses, CourseRow)),
                      CsvFile(names[1], SectionHeaders, RowsOf(g.sections, SectionRow)),
                      CsvFile(names[2], EnrollmentHeaders, RowsOf(g.enrollments, EnrollmentRow))]);
    }

    // -------------------------------------------------------------------
    // Records: add, edit, delete (confirmations taken as granted)

    /** `add_item`: the required-field and duplicate-key checks, then the new record. */
    method AddItem(kind: Kind, data: Fields) returns (o: Outcome<RepoError>)
      requires Valid() && HasDialogFields(kind, data)
      modifies this
      ensures Valid()
      ensures o == AddCheck(old(State()), kind, data)
      ensures o.Pass? ==> State() == WithEntry(old(State()), kind, data[KeyField(kind)], data)
      ensures o.Fail? ==> State() == old(State())
    {
      o := AddCheck(State(), kind, data);
      if o.Fail? {
        return;
      }
      Store(kind, data[KeyField(kind)], data);
    }

    /** `data_map[kind][key] = constructor(**data)` */
    method Store(kind: Kind, key: string, data: Fields)
      requires Valid()
      modifies this
      ensures Valid() && State() == WithEntry(old(State()), kind, key, data)
    {
      match kind {
        case PersonKind => people := people.Put(key, PersonFromArgs(data));
        case CourseKind => courses := courses.Put(key, CourseFromArgs(data));
        case TermKind => terms := terms.Put(key, TermFromArgs(data));
        case AccountKind => accounts := accounts.Put(key, AccountFromArgs(data));
        case ProgramAreaKind => programAreas := programAreas.Put(key, ProgramAreaFromArgs(data));
      }
    }

    /**
      `edit_item` for the record stored under `key`: the required-field and
      key-collision checks, then on a key change the cascade and the
      removal of the old entry, then the rebuilt record.
    */
    method EditItem(kind: Kind, key: string, data: Fields) returns (o: Outcome<RepoError>)
      requires Valid() && HasKey(State(), kind, key) && HasDialogFields(kind, data)
      modifies this
      ensures Valid()
      ensures o == EditCheck(old(State()), kind, key, data)
      ensures o.Pass? ==> State() == Edited(old(State()), kind, key, data)
      ensures o.Fail? ==> State() == old(State())
    {
      o := EditCheck(State(), kind, key, data);
      if o.Fail? {
        return;
      }
      var newKey := data[KeyField(kind)];
      if newKey != key {
        CascadeRename(kind, key, newKey);
        Drop(kind, key);
      }
      Store(kind, newKey, data);
    }

    /** The cascade loops of `edit_item` for a renamed term or program area. */
    method CascadeRename(kind: Kind, oldKey: string, newKey: string)
      requires Valid()
      modifies this
      ensures Valid() && State() == Cascade(old(State()), kind, oldKey, newKey)
    {
      if kind == TermKind {
        sections := RenameTermInSections(sections, oldKey, newKey);
        assert sections == Cascade(old(State()), kind, oldKey, newKey).sections;
      } else if kind == ProgramAreaKind {
        people := UpdateValues(people, p => RetargetPerson(p, oldKey, newKey));
        courses := UpdateValues(courses, c => RetargetCourse(c, oldKey, newKey));
      }
    }

    /** `del data_map[kind][key]` */
    method Drop(kind: Kind, key: string)
      requires Valid()
      modifies this
      ensures Valid() && State() == WithoutEntry(old(State()), kind, key)
    {
      match kind {
        case PersonKind => people := people.Remove(key);
        case CourseKind => courses := courses.Remove(key);
        case TermKind => terms := terms.Remove(key);
        case AccountKind => accounts := accounts.Remove(key);
        case ProgramAreaKind => programAreas := programAreas.Remove(key);
      }
    }

    /** `delete_item`: refused while the record is in use; an absent key is a no-op. */
    method DeleteItem(kind: Kind, key: string) returns (o: Outcome<RepoError>)
      requires Valid()
      modifies this
      ensures Valid()
      ensures o == DeleteCheck(old(State()), kind, key)
      ensures o.Pass? ==> State() == WithoutEntry(old(State()), kind, key)
      ensures o.Fail? ==> State() == old(State())
    {
      o := DeleteCheck(State(), kind, key);
      if o.Fail? {
        return;
      }
      Drop(kind, key);
    }

    /** `delete_section`: the selected sections go, highest index first. */
    method DeleteSections(selected: set<nat>)
      requires forall i <- selected :: i < |sections|
      modifies this
      ensures sections == BatchDelete.Keep(old(sections), selected)
      ensures State() == old(State()).(sections := sections)
    {
      sections := BatchDelete.DeleteDescending(sections, selected);
    }

    // -------------------------------------------------------------------
    // Enrollments of one section

    /** `add_enrollment` on section `i`. */
    method AddEnrollment(i: nat, userId: string, role: string, status: string) returns (o: Outcome<RepoError>)
      requires i < |sections|
      modifies this
      ensures o == EnrollCheck(old(State()), i, userId, role)
      ensures o.Pass? ==> State() == WithEnrollment(old(State()), i, Enrollment(userId, role, status))
      ensures o.Fail? ==> State() == old(State())
    {
      o := EnrollCheck(State(), i, userId, role);
      if o.Fail? {
        return;
      }
      var s := sections[i];
      sections := sections[i := s.(enrollments := s.enrollments + [Enrollment(userId, role, status)])];
    }

    /** `delete_enrollment` on section `i`: the selected enrollments go, highest index first. */
    method DeleteEnrollments(i: nat, selected: set<nat>)
      requires i < |sections| && forall j <- selected :: j < |sections[i].enrollments|
      modifies this
      ensures State() == WithoutEnrollments(old(State()), i, selected)
    {
      var s := sections[i];
      var kept := BatchDelete.DeleteDescending(s.enrollments, selected);
      sections := sections[i := s.(enrollments := kept)];
    }

    // -------------------------------------------------------------------
    // Enrollment roles

    /** `add_role`: both fields required, and the display name must be new. */
    method AddRole(displayName: string, canvasRole: string) returns (o: Outcome<RepoError>)
      requires Valid()
      modifies this
      ensures Valid()
      ensures o == RoleCheck(old(enrollmentRoles), displayName, canvasRole)
      ensures o.Pass? ==> State() == old(State()).(enrollmentRoles := old(enrollmentRoles).Put(displayName, canvasRole))
      ensures o.Fail? ==> State() == old(State())
    {
      o := RoleCheck(enrollmentRoles, displayName, canvasRole);
      if o.Pass? {
        enrollmentRoles := enrollmentRoles.Put(displayName, canvasRole);
      }
    }

    /** `edit_role`: the stored display name gets the new Canvas role, unchecked. */
    method EditRole(displayName: string, canvasRole: string)
      requires Valid() && enrollmentRoles.Has(displayName)
      modifies this
      ensures Valid()
      ensures State() == old(State()).(enrollmentRoles := old(enrollmentRoles).Put(displayName, canvasRole))
      ensures enrollmentRoles.keys == old(enrollmentRoles.keys)
    {
      enrollmentRoles := enrollmentRoles.Put(displayName, canvasRole);
    }

    /** `delete_role` */
    method DeleteRole(displayName: string)
      requires Valid() && enrollmentRoles.Has(displayName)
      modifies this
      ensures Valid()
      ensures State() == old(State()).(enrollmentRoles := old(enrollmentRoles).Remove(displayName))
    {
      enrollmentRoles := enrollmentRoles.Remove(displayName);
    }
  }

  // ---------------------------------------------------------------------
  // Properties of the role map as the generator uses it

  /** After `add_role` succeeds, the generator writes the new Canvas role for that display name. */
  lemma AddedRoleTranslates(roles: OMap<string>, displayName: string, canvasRole: string)
    requires roles.Valid() && RoleCheck(roles, displayName, canvasRole).Pass?
    ensures Translate(roles.Put(displayName, canvasRole), displayName) == canvasRole
    ensures forall other | other != displayName ::
              Translate(roles.Put(displayName, canvasRole), other) == Translate(roles, other)
  {
  }

  /** After `delete_role`, the display name passes through the generator unchanged. */
  lemma DeletedRolePassesThrough(roles: OMap<string>, displayName: string)
    requires roles.Valid()
    ensures Translate(roles.Remove(displayName), displayName) == displayName
  {
  }
}

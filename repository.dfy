/**
  The in-memory store of the tool (the collections of `DataManager`,
  main.py:161-169) and the referential-integrity rules that the add, edit
  and delete handlers enforce on it (main.py:953-1119, 1656-1692, 1230-1275).
*/
module Repository {
  import opened Wrappers
  import opened OrderedMaps
  import opened Entities
  import BatchDelete

  /** A snapshot of every collection the data manager holds. */
  datatype Repo = Repo(
    people: OMap<Person>,
    courses: OMap<Course>,
    terms: OMap<Term>,
    accounts: OMap<Account>,
    programAreas: OMap<ProgramArea>,
    enrollmentRoles: OMap<string>,
    sections: seq<Section>)
  {
    ghost predicate Valid() {
      && people.Valid() && courses.Valid() && terms.Valid() && accounts.Valid()
      && programAreas.Valid() && enrollmentRoles.Valid()
    }
  }

  /** The failures the handlers report instead of changing anything. */
  datatype RepoError = EmptyField | DuplicateKey | EntityInUse | UnknownPerson | DuplicateEnrollment

  /** The seed role map, in the order the source lists it (main.py:210-216). */
  function DefaultRoles(): (roles: OMap<string>)
    ensures roles.Valid() && |roles.keys| == 4
    ensures roles.Get("Student") == Some("student")
    ensures roles.Get("Teaching Assistant") == Some("ta")
    ensures roles.Get("Instructor") == Some("teacher")
    ensures roles.Get("Program Manager") == Some("Program Manager")
  {
    OMap(["Student", "Teaching Assistant", "Instructor", "Program Manager"],
         map["Student" := "student", "Teaching Assistant" := "ta",
             "Instructor" := "teacher", "Program Manager" := "Program Manager"])
  }

  /** `initialize_empty`: no records, no sections, the seed role map. */
  function EmptyRepo(): (r: Repo)
    ensures r.Valid() && r.sections == [] && r.enrollmentRoles == DefaultRoles()
    ensures r.people.keys == [] && r.courses.keys == [] && r.terms.keys == []
    ensures r.accounts.keys == [] && r.programAreas.keys == []
  {
    Repo(Empty(), Empty(), Empty(), Empty(), Empty(), DefaultRoles(), [])
  }

  // ---------------------------------------------------------------------
  // The five keyed kinds and their per-kind tables

  datatype Kind = PersonKind | CourseKind | TermKind | AccountKind | ProgramAreaKind

  /** The key field of each kind (`key_field_map`, main.py:962-963). */
  function KeyField(kind: Kind): string {
    match kind
    case PersonKind => "user_id"
    case CourseKind => "course_id_portion"
    case TermKind => "name"
    case AccountKind => "account_id"
    case ProgramAreaKind => "name"
  }

  /** The fields the add and edit dialogs collect (`fields_map`, main.py:955-961). */
  function DialogFields(kind: Kind): (fs: seq<string>)
    ensures KeyField(kind) in fs
  {
    match kind
    case PersonKind => ["user_id", "name", "program_area_name"]
    case CourseKind => ["course_id_portion", "short_name", "long_name", "program_area_name"]
    case TermKind => ["name", "term_id", "short_code"]
    case AccountKind => ["account_id"]
    case ProgramAreaKind => ["name"]
  }

  /** `Person(**args)` and its siblings; `program_area_name` defaults to "". */
  function PersonFromArgs(args: Fields): Person {
    Person(Lookup(args, "name", ""), Lookup(args, "user_id", ""), Lookup(args, "program_area_name", ""))
  }

  function CourseFromArgs(args: Fields): (c: Course)
    ensures IsUpper(c.courseIdPortion)
  {
    NewCourse(Lookup(args, "short_name", ""), Lookup(args, "long_name", ""),
              Lookup(args, "course_id_portion", ""), Lookup(args, "program_area_name", ""))
  }

  function TermFromArgs(args: Fields): Term {
    Term(Lookup(args, "term_id", ""), Lookup(args, "name", ""), Lookup(args, "short_code", ""))
  }

  function AccountFromArgs(args: Fields): Account {
    Account(Lookup(args, "account_id", ""))
  }

  function ProgramAreaFromArgs(args: Fields): ProgramArea {
    ProgramArea(Lookup(args, "name", ""))
  }

  predicate HasKey(r: Repo, kind: Kind, key: string) {
    match kind
    case PersonKind => r.people.Has(key)
    case CourseKind => r.courses.Has(key)
    case TermKind => r.terms.Has(key)
    case AccountKind => r.accounts.Has(key)
    case ProgramAreaKind => r.programAreas.Has(key)
  }

  /** `data_map[kind][key] = constructor(**args)` */
  function WithEntry(r: Repo, kind: Kind, key: string, args: Fields): (r': Repo)
    requires r.Valid()
    ensures r'.Valid() && r'.sections == r.sections && r'.enrollmentRoles == r.enrollmentRoles
  {
    match kind
    case PersonKind => r.(people := r.people.Put(key, PersonFromArgs(args)))
    case CourseKind => r.(courses := r.courses.Put(key, CourseFromArgs(args)))
    case TermKind => r.(terms := r.terms.Put(key, TermFromArgs(args)))
    case AccountKind => r.(accounts := r.accounts.Put(key, AccountFromArgs(args)))
    case ProgramAreaKind => r.(programAreas := r.programAreas.Put(key, ProgramAreaFromArgs(args)))
  }

  /** `del data_map[kind][key]` */
  function WithoutEntry(r: Repo, kind: Kind, key: string): (r': Repo)
    requires r.Valid()
    ensures r'.Valid() && r'.sections == r.sections && r'.enrollmentRoles == r.enrollmentRoles
  {
    match kind
    case PersonKind => r.(people := r.people.Remove(key))
    case CourseKind => r.(courses := r.courses.Remove(key))
    case TermKind => r.(terms := r.terms.Remove(key))
    case AccountKind => r.(accounts := r.accounts.Remove(key))
    case ProgramAreaKind => r.(programAreas := r.programAreas.Remove(key))
  }

  lemma WithEntryStores(r: Repo, kind: Kind, key: string, args: Fields)
    requires r.Valid()
    ensures HasKey(WithEntry(r, kind, key, args), kind, key)
    ensures forall k :: k != key ==> (HasKey(WithEntry(r, kind, key, args), kind, k) <==> HasKey(r, kind, k))
    ensures forall other: Kind, k :: other != kind ==>
              (HasKey(WithEntry(r, kind, key, args), other, k) <==> HasKey(r, other, k))
    ensures var r' := WithEntry(r, kind, key, args);
      && (kind == PersonKind ==> r'.(people := r.people) == r && r'.people.entries == r.people.entries[key := PersonFromArgs(args)])
      && (kind == CourseKind ==> r'.(courses := r.courses) == r && r'.courses.entries == r.courses.entries[key := CourseFromArgs(args)])
      && (kind == TermKind ==> r'.(terms := r.terms) == r && r'.terms.entries == r.terms.entries[key := TermFromArgs(args)])
      && (kind == AccountKind ==>
            r'.(accounts := r.accounts) == r && r'.accounts.entries == r.accounts.entries[key := AccountFromArgs(args)])
      && (kind == ProgramAreaKind ==>
            && r'.(programAreas := r.programAreas) == r
            && r'.programAreas.entries == r.programAreas.entries[key := ProgramAreaFromArgs(args)])
  {
    match kind {
      case PersonKind =>
      case CourseKind =>
      case TermKind =>
      case AccountKind =>
      case ProgramAreaKind =>
    }
  }

  lemma WithoutEntryRemoves(r: Repo, kind: Kind, key: string)
    requires r.Valid()
    ensures !HasKey(WithoutEntry(r, kind, key), kind, key)
    ensures forall k :: k != key ==> (HasKey(WithoutEntry(r, kind, key), kind, k) <==> HasKey(r, kind, k))
    ensures forall other: Kind, k :: other != kind ==>
              (HasKey(WithoutEntry(r, kind, key), other, k) <==> HasKey(r, other, k))
  {
    var w := WithoutEntry(r, kind, key);
    match kind {
      case PersonKind => assert w == r.(people := r.people.Remove(key));
      case CourseKind => assert w == r.(courses := r.courses.Remove(key));
      case TermKind => assert w == r.(terms := r.terms.Remove(key));
      case AccountKind => assert w == r.(accounts := r.accounts.Remove(key));
      case ProgramAreaKind => assert w == r.(programAreas := r.programAreas.Remove(key));
    }
  }

  // ---------------------------------------------------------------------
  // Checks the handlers make before changing anything

  /** Every field the dialog collects is present in `data`. */
  predicate HasDialogFields(kind: Kind, data: Fields) {
    forall f <- DialogFields(kind) :: f in data
  }

  /** `delete_item`'s in-use test (main.py:1096-1109). */
  predicate InUse(r: Repo, kind: Kind, key: string) {
    match kind
    case PersonKind =>
      exists i, j | 0 <= i < |r.sections| && 0 <= j < |r.sections[i].enrollments| ::
        r.sections[i].enrollments[j].userId == key
    case ProgramAreaKind =>
      || (exists k | k in r.people.entries :: r.people.entries[k].programAreaName == key)
      || (exists k | k in r.courses.entries :: r.courses.entries[k].programAreaName == key)
    case CourseKind => exists i | 0 <= i < |r.sections| :: r.sections[i].courseIdPortion == key
    case TermKind => exists i | 0 <= i < |r.sections| :: r.sections[i].termName == Some(key)
    case AccountKind => exists i | 0 <= i < |r.sections| :: r.sections[i].accountId == key
  }

  // ---------------------------------------------------------------------
  // Cascade rename (main.py:1047-1055)

  /** A section that named term `oldName` now names `newName`. */
  function RetargetSection(s: Section, oldName: string, newName: string): Section {
    if s.termName == Some(oldName) then s.(termName := Some(newName)) else s
  }

  function RetargetPerson(p: Person, oldName: string, newName: string): Person {
    if p.programAreaName == oldName then p.(programAreaName := newName) else p
  }

  function RetargetCourse(c: Course, oldName: string, newName: string): Course {
    if c.programAreaName == oldName then c.(programAreaName := newName) else c
  }

  /** `for section in sections: if section.term_name == old: section.term_name = new` */
  method RenameTermInSections(sections: seq<Section>, oldName: string, newName: string) returns (r: seq<Section>)
    ensures |r| == |sections|
    ensures forall i | 0 <= i < |sections| :: r[i] == RetargetSection(sections[i], oldName, newName)
  {
    r := sections;
    for i := 0 to |sections|
      invariant |r| == |sections|
      invariant forall j | 0 <= j < i :: r[j] == RetargetSection(sections[j], oldName, newName)
      invariant forall j | i <= j < |sections| :: r[j] == sections[j]
    {
      if r[i].termName == Some(oldName) {
        r := r[i := r[i].(termName := Some(newName))];
      }
    }
  }

  /** Updates every value of a dict in place, visiting the keys in insertion order. */
  method UpdateValues<V>(m: OMap<V>, f: V -> V) returns (r: OMap<V>)
    requires m.Valid()
    ensures r == MapValues(m, f)
  {
    r := m;
    for i := 0 to |m.keys|
      invariant r.Valid() && r.keys == m.keys && r.entries.Keys == m.entries.Keys
      invariant forall j | 0 <= j < i :: r.entries[m.keys[j]] == f(m.entries[m.keys[j]])
      invariant forall j | i <= j < |m.keys| :: r.entries[m.keys[j]] == m.entries[m.keys[j]]
    {
      var k := m.keys[i];
      r := r.Put(k, f(r.entries[k]));
    }
    assert forall k | k in m.entries :: r.entries[k] == f(m.entries[k]) by {
      forall k | k in m.entries ensures r.entries[k] == f(m.entries[k]) {
        var j :| 0 <= j < |m.keys| && m.keys[j] == k;
      }
    }
  }

  /** The reference change a key rename makes: terms for sections, program areas for people and courses. */
  function Cascade(r: Repo, kind: Kind, oldKey: string, newKey: string): (r': Repo)
    requires r.Valid()
    ensures r'.Valid()
    ensures forall other: Kind, k :: HasKey(r', other, k) <==> HasKey(r, other, k)
    ensures r'.terms == r.terms && r'.accounts == r.accounts && r'.programAreas == r.programAreas
    ensures r'.enrollmentRoles == r.enrollmentRoles && |r'.sections| == |r.sections|
    ensures kind != TermKind && kind != ProgramAreaKind ==> r' == r
    ensures kind == TermKind && oldKey != newKey ==>
              forall i | 0 <= i < |r'.sections| :: r'.sections[i].termName != Some(oldKey)
    ensures kind == ProgramAreaKind && oldKey != newKey ==>
              && (forall k | k in r'.people.entries :: r'.people.entries[k].programAreaName != oldKey)
              && (forall k | k in r'.courses.entries :: r'.courses.entries[k].programAreaName != oldKey)
  {
    match kind
    case TermKind =>
      r.(sections := seq(|r.sections|, i requires 0 <= i < |r.sections| => RetargetSection(r.sections[i], oldKey, newKey)))
    case ProgramAreaKind =>
      r.(people := MapValues(r.people, p => RetargetPerson(p, oldKey, newKey)),
         courses := MapValues(r.courses, c => RetargetCourse(c, oldKey, newKey)))
    case _ => r
  }

  /** The store after a successful `edit_item(kind, key, data)`. */
  function Edited(r: Repo, kind: Kind, key: string, data: Fields): (r': Repo)
    requires r.Valid()
    ensures r'.Valid()
    ensures var newKey := Lookup(data, KeyField(kind), "");
      && HasKey(r', kind, newKey)
      && (newKey != key ==> !HasKey(r', kind, key))
      && (forall k | k != key && k != newKey :: HasKey(r', kind, k) <==> HasKey(r, kind, k))
      && (forall other: Kind, k | other != kind :: HasKey(r', other, k) <==> HasKey(r, other, k))
  {
    var newKey := Lookup(data, KeyField(kind), "");
    if newKey == key then
      WithEntryStores(r, kind, key, data);
      WithEntry(r, kind, key, data)
    else
      var w := WithoutEntry(Cascade(r, kind, key, newKey), kind, key);
      WithoutEntryRemoves(Cascade(r, kind, key, newKey), kind, key);
      WithEntryStores(w, kind, newKey, data);
      WithEntry(w, kind, newKey, data)
  }

  /**
    What `edit_item` stores: the record `constructors[kind](**data)` under the
    new key, the old key gone, every other record of the kind as it was, and
    nothing else changed beyond the cascade of a term or program-area rename.
  */
  lemma EditedStores(r: Repo, kind: Kind, key: string, data: Fields)
    requires r.Valid()
    ensures var newKey, r' := Lookup(data, KeyField(kind), ""), Edited(r, kind, key, data);
      && (kind == PersonKind ==>
            r'.(people := r.people) == r && r'.people.entries == (r.people.entries - {key})[newKey := PersonFromArgs(data)])
      && (kind == CourseKind ==>
            r'.(courses := r.courses) == r && r'.courses.entries == (r.courses.entries - {key})[newKey := CourseFromArgs(data)])
      && (kind == AccountKind ==>
            && r'.(accounts := r.accounts) == r
            && r'.accounts.entries == (r.accounts.entries - {key})[newKey := AccountFromArgs(data)])
    ensures var newKey, r' := Lookup(data, KeyField(kind), ""), Edited(r, kind, key, data);
      kind == TermKind ==>
        && r'.(terms := r.terms, sections := r.sections) == r
        && r'.terms.entries == (r.terms.entries - {key})[newKey := TermFromArgs(data)]
        && r'.sections == (if newKey == key then r.sections else Cascade(r, kind, key, newKey).sections)
    ensures var newKey, r' := Lookup(data, KeyField(kind), ""), Edited(r, kind, key, data);
      kind == ProgramAreaKind ==>
        && r'.(programAreas := r.programAreas, people := r.people, courses := r.courses) == r
        && r'.programAreas.entries == (r.programAreas.entries - {key})[newKey := ProgramAreaFromArgs(data)]
        && r'.people == (if newKey == key then r.people else Cascade(r, kind, key, newKey).people)
        && r'.courses == (if newKey == key then r.courses else Cascade(r, kind, key, newKey).courses)
  {
    match kind {
      case PersonKind => EditedPerson(r, key, data);
      case CourseKind => EditedCourse(r, key, data);
      case AccountKind => EditedAccount(r, key, data);
      case TermKind => EditedTerm(r, key, data);
      case ProgramAreaKind => EditedArea(r, key, data);
    }
  }

  lemma EditedPerson(r: Repo, key: string, data: Fields)
    requires r.Valid()
    ensures var newKey, r' := Lookup(data, KeyField(PersonKind), ""), Edited(r, PersonKind, key, data);
      r'.(people := r.people) == r && r'.people.entries == (r.people.entries - {key})[newKey := PersonFromArgs(data)]
  {
  }

  lemma EditedCourse(r: Repo, key: string, data: Fields)
    requires r.Valid()
    ensures var newKey, r' := Lookup(data, KeyField(CourseKind), ""), Edited(r, CourseKind, key, data);
      r'.(courses := r.courses) == r && r'.courses.entries == (r.courses.entries - {key})[newKey := CourseFromArgs(data)]
  {
  }

  lemma EditedAccount(r: Repo, key: string, data: Fields)
    requires r.Valid()
    ensures var newKey, r' := Lookup(data, KeyField(AccountKind), ""), Edited(r, AccountKind, key, data);
      r'.(accounts := r.accounts) == r && r'.accounts.entries == (r.accounts.entries - {key})[newKey := AccountFromArgs(data)]
  {
  }

  lemma EditedTerm(r: Repo, key: string, data: Fields)
    requires r.Valid()
    ensures var newKey, r' := Lookup(data, KeyField(TermKind), ""), Edited(r, TermKind, key, data);
      && r'.(terms := r.terms, sections := r.sections) == r
      && r'.terms.entries == (r.terms.entries - {key})[newKey := TermFromArgs(data)]
      && r'.sections == (if newKey == key then r.sections else Cascade(r, TermKind, key, newKey).sections)
  {
  }

  lemma EditedArea(r: Repo, key: string, data: Fields)
    requires r.Valid()
    ensures var newKey, r' := Lookup(data, KeyField(ProgramAreaKind), ""), Edited(r, ProgramAreaKind, key, data);
      && r'.(programAreas := r.programAreas, people := r.people, courses := r.courses) == r
      && r'.programAreas.entries == (r.programAreas.entries - {key})[newKey := ProgramAreaFromArgs(data)]
      && r'.people == (if newKey == key then r.people else Cascade(r, ProgramAreaKind, key, newKey).people)
      && r'.courses == (if newKey == key then r.courses else Cascade(r, ProgramAreaKind, key, newKey).courses)
  {
  }



  /**
    What `edit_item` reports before it changes anything: every dialog field
    but the read-only key and the program area must be filled in, and a
    changed key must not be taken. An empty field is reported first.
  */
  function EditCheck(r: Repo, kind: Kind, key: string, data: Fields): (o: Outcome<RepoError>)
    requires HasDialogFields(kind, data)
    ensures o.Pass? <==>
              && (forall f <- DialogFields(kind) | f != "program_area_name" && f != KeyField(kind) :: data[f] != "")
              && (data[KeyField(kind)] == key || !HasKey(r, kind, data[KeyField(kind)]))
    ensures (exists f <- DialogFields(kind) :: f != "program_area_name" && f != KeyField(kind) && data[f] == "") ==>
              o == Fail(EmptyField)
    ensures o.Fail? ==> o.error == EmptyField || o.error == DuplicateKey
  {
    if exists f <- DialogFields(kind) :: f != "program_area_name" && f != KeyField(kind) && data[f] == ""
    then Fail(EmptyField)
    else if data[KeyField(kind)] != key && HasKey(r, kind, data[KeyField(kind)]) then Fail(DuplicateKey)
    else Pass
  }

  /**
    What `add_item` reports before it changes anything: every dialog field
    but the program area, the key included, must be filled in, and the key
    must be new. An empty field is reported first.
  */
  function AddCheck(r: Repo, kind: Kind, data: Fields): (o: Outcome<RepoError>)
    requires HasDialogFields(kind, data)
    ensures o.Pass? <==>
              && (forall f <- DialogFields(kind) | f != "program_area_name" :: data[f] != "")
              && !HasKey(r, kind, data[KeyField(kind)])
    ensures o.Pass? ==> data[KeyField(kind)] != ""
    ensures (exists f <- DialogFields(kind) :: f != "program_area_name" && data[f] == "") ==> o == Fail(EmptyField)
    ensures o.Fail? ==> o.error == EmptyField || o.error == DuplicateKey
  {
    if exists f <- DialogFields(kind) :: f != "program_area_name" && data[f] == "" then Fail(EmptyField)
    else if HasKey(r, kind, data[KeyField(kind)]) then Fail(DuplicateKey)
    else Pass
  }

  /** What `delete_item` reports before it changes anything. */
  function DeleteCheck(r: Repo, kind: Kind, key: string): (o: Outcome<RepoError>)
    ensures o.Fail? <==> InUse(r, kind, key)
  {
    if InUse(r, kind, key) then Fail(EntityInUse) else Pass
  }

  // ---------------------------------------------------------------------
  // Referential integrity

  /** A program area field is blank or names a stored program area. */
  predicate AreaResolves(r: Repo, area: string) {
    area == "" || r.programAreas.Has(area)
  }

  predicate SectionResolves(r: Repo, s: Section) {
    && r.courses.Has(s.courseIdPortion)
    && s.termName.Some? && r.terms.Has(s.termName.value)
    && r.accounts.Has(s.accountId)
    && forall e <- s.enrollments :: r.people.Has(e.userId)
  }

  /** Every stored reference names a stored record. */
  ghost predicate Consistent(r: Repo) {
    && (forall s <- r.sections :: SectionResolves(r, s))
    && (forall k | k in r.people.entries :: AreaResolves(r, r.people.entries[k].programAreaName))
    && (forall k | k in r.courses.entries :: AreaResolves(r, r.courses.entries[k].programAreaName))
  }

  /** The references a new or edited record carries resolve. */
  predicate ArgsResolve(r: Repo, kind: Kind, data: Fields) {
    (kind == PersonKind || kind == CourseKind) ==> AreaResolves(r, Lookup(data, "program_area_name", ""))
  }

  /**
    The in-use guard is exact: on a consistent store, deleting a stored
    record keeps the store consistent if and only if nothing uses it.
  */
  lemma DeleteGuardIsExact(r: Repo, kind: Kind, key: string)
    requires r.Valid() && Consistent(r) && HasKey(r, kind, key)
    requires kind == ProgramAreaKind ==> key != ""
    ensures Consistent(WithoutEntry(r, kind, key)) <==> !InUse(r, kind, key)
  {
    var r' := WithoutEntry(r, kind, key);
    if InUse(r, kind, key) {
      match kind
      case PersonKind =>
        var i, j :| 0 <= i < |r.sections| && 0 <= j < |r.sections[i].enrollments| &&
                    r.sections[i].enrollments[j].userId == key;
        assert r.sections[i] in r'.sections;
        assert r.sections[i].enrollments[j] in r.sections[i].enrollments;
        assert !SectionResolves(r', r.sections[i]);
      case CourseKind =>
        var i :| 0 <= i < |r.sections| && r.sections[i].courseIdPortion == key;
        assert r.sections[i] in r'.sections && !SectionResolves(r', r.sections[i]);
      case TermKind =>
        var i :| 0 <= i < |r.sections| && r.sections[i].termName == Some(key);
        assert r.sections[i] in r'.sections && !SectionResolves(r', r.sections[i]);
      case AccountKind =>
        var i :| 0 <= i < |r.sections| && r.sections[i].accountId == key;
        assert r.sections[i] in r'.sections && !SectionResolves(r', r.sections[i]);
      case ProgramAreaKind =>
        if exists k | k in r.people.entries :: r.people.entries[k].programAreaName == key {
          var k :| k in r.people.entries && r.people.entries[k].programAreaName == key;
          assert !AreaResolves(r', r'.people.entries[k].programAreaName);
        } else {
          var k :| k in r.courses.entries && r.courses.entries[k].programAreaName == key;
          assert !AreaResolves(r', r'.courses.entries[k].programAreaName);
        }
    } else {
      forall s <- r'.sections ensures SectionResolves(r', s) {
        assert SectionResolves(r, s);
        var i :| 0 <= i < |r.sections| && r.sections[i] == s;
        if kind == PersonKind {
          forall e <- s.enrollments ensures r'.people.Has(e.userId) {
            var j :| 0 <= j < |s.enrollments| && s.enrollments[j] == e;
          }
        }
      }
    }
  }

  /** Adding a record whose own references resolve keeps the store consistent. */
  lemma AddKeepsConsistent(r: Repo, kind: Kind, key: string, data: Fields)
    requires r.Valid() && Consistent(r) && ArgsResolve(r, kind, data)
    ensures Consistent(WithEntry(r, kind, key, data))
  {
    var r' := WithEntry(r, kind, key, data);
    forall s <- r'.sections ensures SectionResolves(r', s) {
      assert SectionResolves(r, s);
    }
  }

  /**
    A Term or Program Area rename carries every reference along, so the store
    stays consistent; the other kinds keep it consistent only when the old key
    is unused or kept.
  */
  lemma EditKeepsConsistent(r: Repo, kind: Kind, key: string, data: Fields)
    requires r.Valid() && Consistent(r) && HasKey(r, kind, key)
    requires HasDialogFields(kind, data) && EditCheck(r, kind, key, data).Pass?
    requires ArgsResolve(r, kind, data)
    requires (kind == PersonKind || kind == CourseKind || kind == AccountKind) ==>
               data[KeyField(kind)] == key || !InUse(r, kind, key)
    ensures Consistent(Edited(r, kind, key, data))
  {
    var newKey := data[KeyField(kind)];
    if newKey == key {
      AddKeepsConsistent(r, kind, key, data);
    } else if kind == TermKind {
      TermRenameKeepsConsistent(r, key, data);
    } else if kind == ProgramAreaKind {
      AreaRenameKeepsConsistent(r, key, data);
    } else {
      var w := WithoutEntry(Cascade(r, kind, key, newKey), kind, key);
      assert w == WithoutEntry(r, kind, key);
      DeleteGuardIsExact(r, kind, key);
      AddKeepsConsistent(w, kind, newKey, data);
    }
  }

  lemma TermRenameKeepsConsistent(r: Repo, key: string, data: Fields)
    requires r.Valid() && Consistent(r) && HasKey(r, TermKind, key)
    requires HasDialogFields(TermKind, data) && data["name"] != key
    ensures Consistent(Edited(r, TermKind, key, data))
  {
    var newKey := data["name"];
    var r' := Edited(r, TermKind, key, data);
    TermRenameShape(r, key, data);
    forall s <- r'.sections ensures SectionResolves(r', s) {
      var i :| 0 <= i < |r'.sections| && r'.sections[i] == s;
      RetargetResolves(r, r', r.sections[i], key, newKey);
    }
  }

  /** What a term rename changes: the terms and the sections' term names, nothing else. */
  lemma TermRenameShape(r: Repo, key: string, data: Fields)
    requires r.Valid() && HasDialogFields(TermKind, data) && data["name"] != key
    ensures var r' := Edited(r, TermKind, key, data); var newKey := data["name"];
      && r'.people == r.people && r'.courses == r.courses && r'.accounts == r.accounts
      && r'.programAreas == r.programAreas
      && r'.terms.Has(newKey) && (forall k :: k != key && r.terms.Has(k) ==> r'.terms.Has(k))
      && |r'.sections| == |r.sections|
      && forall i | 0 <= i < |r.sections| :: r'.sections[i] == RetargetSection(r.sections[i], key, newKey)
  {
  }

  /** A section that resolved still resolves once its term name follows the rename. */
  lemma RetargetResolves(r: Repo, r': Repo, s: Section, key: string, newKey: string)
    requires SectionResolves(r, s)
    requires r'.people == r.people && r'.courses == r.courses && r'.accounts == r.accounts
    requires r'.terms.Has(newKey) && forall k :: k != key && r.terms.Has(k) ==> r'.terms.Has(k)
    ensures SectionResolves(r', RetargetSection(s, key, newKey))
  {
  }

  lemma AreaRenameKeepsConsistent(r: Repo, key: string, data: Fields)
    requires r.Valid() && Consistent(r) && HasKey(r, ProgramAreaKind, key)
    requires HasDialogFields(ProgramAreaKind, data) && data["name"] != key
    ensures Consistent(Edited(r, ProgramAreaKind, key, data))
  {
    AreaRenameShape(r, key, data);
    AreaRenameSections(r, Edited(r, ProgramAreaKind, key, data));
    AreaRenameRecords(r, Edited(r, ProgramAreaKind, key, data), key, data["name"]);
  }

  lemma AreaRenameSections(r: Repo, r': Repo)
    requires forall s <- r.sections :: SectionResolves(r, s)
    requires r'.sections == r.sections && r'.terms == r.terms && r'.accounts == r.accounts
    requires r'.people.entries.Keys == r.people.entries.Keys && r'.courses.entries.Keys == r.courses.entries.Keys
    ensures forall s <- r'.sections :: SectionResolves(r', s)
  {
    forall s <- r'.sections ensures SectionResolves(r', s) {
      assert SectionResolves(r, s);
    }
  }

  lemma AreaRenameRecords(r: Repo, r': Repo, key: string, newKey: string)
    requires forall k | k in r.people.entries :: AreaResolves(r, r.people.entries[k].programAreaName)
    requires forall k | k in r.courses.entries :: AreaResolves(r, r.courses.entries[k].programAreaName)
    requires r'.people.entries.Keys == r.people.entries.Keys && r'.courses.entries.Keys == r.courses.entries.Keys
    requires r'.programAreas.Has(newKey)
    requires forall k :: k != key && r.programAreas.Has(k) ==> r'.programAreas.Has(k)
    requires forall k | k in r.people.entries :: r'.people.entries[k] == RetargetPerson(r.people.entries[k], key, newKey)
    requires forall k | k in r.courses.entries :: r'.courses.entries[k] == RetargetCourse(r.courses.entries[k], key, newKey)
    ensures forall k | k in r'.people.entries :: AreaResolves(r', r'.people.entries[k].programAreaName)
    ensures forall k | k in r'.courses.entries :: AreaResolves(r', r'.courses.entries[k].programAreaName)
  {
    forall k | k in r'.people.entries ensures AreaResolves(r', r'.people.entries[k].programAreaName) {
      assert AreaResolves(r, r.people.entries[k].programAreaName);
    }
    forall k | k in r'.courses.entries ensures AreaResolves(r', r'.courses.entries[k].programAreaName) {
      assert AreaResolves(r, r.courses.entries[k].programAreaName);
    }
  }

  /** What a program-area rename changes: the areas and the references of people and courses. */
  lemma AreaRenameShape(r: Repo, key: string, data: Fields)
    requires r.Valid() && HasDialogFields(ProgramAreaKind, data) && data["name"] != key
    ensures var r' := Edited(r, ProgramAreaKind, key, data); var newKey := data["name"];
      && r'.sections == r.sections && r'.terms == r.terms && r'.accounts == r.accounts
      && r'.people.entries.Keys == r.people.entries.Keys && r'.courses.entries.Keys == r.courses.entries.Keys
      && r'.programAreas.Has(newKey)
      && (forall k :: k != key && r.programAreas.Has(k) ==> r'.programAreas.Has(k))
      && (forall k | k in r.people.entries :: r'.people.entries[k] == RetargetPerson(r.people.entries[k], key, newKey))
      && (forall k | k in r.courses.entries :: r'.courses.entries[k] == RetargetCourse(r.courses.entries[k], key, newKey))
  {
  }

  /**
    Renaming a course that a section uses strands that section: the rename
    path of `edit_item` has no cascade for courses.
  */
  lemma CourseRenameStrandsSections(r: Repo, key: string, data: Fields)
    requires r.Valid() && HasDialogFields(CourseKind, data)
    requires data["course_id_portion"] != key && InUse(r, CourseKind, key)
    ensures !Consistent(Edited(r, CourseKind, key, data))
  {
    var r' := Edited(r, CourseKind, key, data);
    var i :| 0 <= i < |r.sections| && r.sections[i].courseIdPortion == key;
    assert r'.sections == r.sections;
    assert !r'.courses.Has(key);
    assert r.sections[i] in r'.sections && !SectionResolves(r', r.sections[i]);
  }

  /**
    A course stored under a key other than its own upper-cased portion (as
    a CSV import leaves it) shows that portion in the edit dialog; saving
    the dialog unchanged takes the rename path and strands its sections.
  */
  lemma UnchangedEditStrandsMiskeyedCourse(r: Repo, key: string)
    requires r.Valid() && key in r.courses.entries && InUse(r, CourseKind, key)
    requires r.courses.entries[key].courseIdPortion != key
    ensures !Consistent(Edited(r, CourseKind, key, CourseToDict(r.courses.entries[key])))
  {
    var data := CourseToDict(r.courses.entries[key]);
    assert HasDialogFields(CourseKind, data);
    CourseRenameStrandsSections(r, key, data);
  }

  /** After a term or program area rename nothing refers to the old key any more. */
  lemma RenameMovesReferences(r: Repo, kind: Kind, key: string, data: Fields)
    requires r.Valid() && HasDialogFields(kind, data)
    requires kind == TermKind || kind == ProgramAreaKind
    requires data[KeyField(kind)] != key
    ensures !HasKey(Edited(r, kind, key, data), kind, key)
    ensures !InUse(Edited(r, kind, key, data), kind, key)
    ensures kind == TermKind ==> forall i | 0 <= i < |r.sections| ::
              Edited(r, kind, key, data).sections[i] == RetargetSection(r.sections[i], key, data["name"])
  {
  }

  // ---------------------------------------------------------------------
  // Enrollments of one section

  /** At most one enrollment per user in a section. */
  predicate UniqueUsers(es: seq<Enrollment>) {
    forall i, j | 0 <= i < j < |es| :: es[i].userId != es[j].userId
  }

  predicate Enrolled(es: seq<Enrollment>, userId: string) {
    exists e <- es :: e.userId == userId
  }

  lemma AppendKeepsUniqueUsers(es: seq<Enrollment>, e: Enrollment)
    requires UniqueUsers(es) && !Enrolled(es, e.userId)
    ensures UniqueUsers(es + [e])
  {
    forall i, j | 0 <= i < j < |es| + 1 ensures (es + [e])[i].userId != (es + [e])[j].userId {
      if j == |es| {
        assert es[i] in es;
      }
    }
  }

  lemma {:induction false} KeepFromKeepsUniqueUsers(es: seq<Enrollment>, drop: set<nat>, base: nat)
    requires UniqueUsers(es)
    ensures UniqueUsers(BatchDelete.KeepFrom(es, drop, base))
    decreases |es|
  {
    if es != [] {
      var rest := BatchDelete.KeepFrom(es[1..], drop, base + 1);
      KeepFromKeepsUniqueUsers(es[1..], drop, base + 1);
      if base !in drop {
        forall j | 0 <= j < |rest| ensures es[0].userId != rest[j].userId {
          assert rest[j] in rest;
          BatchDelete.KeepFromOrigin(es[1..], drop, base + 1, rest[j]);
          var i :| 0 <= i < |es[1..]| && base + 1 + i !in drop && es[1..][i] == rest[j];
          assert es[i + 1] == rest[j];
        }
        var all := [es[0]] + rest;
        forall i, j | 0 <= i < j < |all| ensures all[i].userId != all[j].userId {
          if i == 0 {
            assert all[j] == rest[j - 1];
          } else {
            assert all[i] == rest[i - 1] && all[j] == rest[j - 1];
          }
        }
      }
    }
  }

  /** Deleting enrollments never creates a duplicate. */
  lemma DeleteKeepsUniqueUsers(es: seq<Enrollment>, drop: set<nat>)
    requires UniqueUsers(es)
    ensures UniqueUsers(BatchDelete.Keep(es, drop))
  {
    KeepFromKeepsUniqueUsers(es, drop, 0);
  }

  /**
    What `add_enrollment` reports before it changes anything: the person
    must be a stored one, a role must be chosen, and the user must not be
    enrolled in the section already.
  */
  function EnrollCheck(r: Repo, i: nat, userId: string, role: string): (o: Outcome<RepoError>)
    requires i < |r.sections|
    ensures o.Pass? <==> r.people.Has(userId) && role != "" && !Enrolled(r.sections[i].enrollments, userId)
  {
    if !r.people.Has(userId) then Fail(UnknownPerson)
    else if role == "" then Fail(EmptyField)
    else if Enrolled(r.sections[i].enrollments, userId) then Fail(DuplicateEnrollment)
    else Pass
  }

  /** Section `i` with one more enrollment at the end. */
  function WithEnrollment(r: Repo, i: nat, e: Enrollment): (r': Repo)
    requires i < |r.sections|
    ensures r' == r.(sections := r'.sections) && |r'.sections| == |r.sections|
    ensures forall j | 0 <= j < |r.sections| && j != i :: r'.sections[j] == r.sections[j]
    ensures r'.sections[i] == r.sections[i].(enrollments := r'.sections[i].enrollments)
    ensures r'.sections[i].enrollments == r.sections[i].enrollments + [e]
  {
    r.(sections := r.sections[i := r.sections[i].(enrollments := r.sections[i].enrollments + [e])])
  }

  /** Section `i` without the enrollments at the selected indices. */
  function WithoutEnrollments(r: Repo, i: nat, selected: set<nat>): (r': Repo)
    requires i < |r.sections|
    ensures r' == r.(sections := r'.sections) && |r'.sections| == |r.sections|
    ensures forall j | 0 <= j < |r.sections| && j != i :: r'.sections[j] == r.sections[j]
    ensures r'.sections[i] == r.sections[i].(enrollments := r'.sections[i].enrollments)
    ensures r'.sections[i].enrollments == BatchDelete.Keep(r.sections[i].enrollments, selected)
    ensures forall x <- r'.sections[i].enrollments :: x in r.sections[i].enrollments
    ensures |r'.sections[i].enrollments| <= |r.sections[i].enrollments|
  {
    r.(sections := r.sections[i := r.sections[i].(enrollments := BatchDelete.Keep(r.sections[i].enrollments, selected))])
  }

  /**
    An enrollment that passes the checks keeps the store consistent and
    keeps each user at most once in the section.
  */
  lemma EnrollKeepsConsistent(r: Repo, i: nat, userId: string, role: string, status: string)
    requires i < |r.sections| && Consistent(r) && UniqueUsers(r.sections[i].enrollments)
    requires EnrollCheck(r, i, userId, role).Pass?
    ensures Consistent(WithEnrollment(r, i, Enrollment(userId, role, status)))
    ensures UniqueUsers(WithEnrollment(r, i, Enrollment(userId, role, status)).sections[i].enrollments)
  {
    var e := Enrollment(userId, role, status);
    var r' := WithEnrollment(r, i, e);
    AppendKeepsUniqueUsers(r.sections[i].enrollments, e);
    forall s <- r'.sections ensures SectionResolves(r', s) {
      var j :| 0 <= j < |r'.sections| && r'.sections[j] == s;
      assert SectionResolves(r, r.sections[j]);
      if j == i {
        forall x <- s.enrollments ensures r'.people.Has(x.userId) {
          if x != e {
            assert x in r.sections[i].enrollments;
          }
        }
      }
    }
  }

  /** Removing enrollments keeps the store consistent and the section free of duplicates. */
  lemma UnenrollKeepsConsistent(r: Repo, i: nat, selected: set<nat>)
    requires i < |r.sections| && Consistent(r) && UniqueUsers(r.sections[i].enrollments)
    ensures Consistent(WithoutEnrollments(r, i, selected))
    ensures UniqueUsers(WithoutEnrollments(r, i, selected).sections[i].enrollments)
  {
    var r' := WithoutEnrollments(r, i, selected);
    DeleteKeepsUniqueUsers(r.sections[i].enrollments, selected);
    forall s <- r'.sections ensures SectionResolves(r', s) {
      var j :| 0 <= j < |r'.sections| && r'.sections[j] == s;
      assert SectionResolves(r, r.sections[j]);
      if j == i {
        forall x <- s.enrollments ensures r'.people.Has(x.userId) {
          BatchDelete.KeepMembers(r.sections[i].enrollments, selected, x);
        }
      }
    }
  }

  /** Deleting sections never leaves a dangling reference: sections only refer, nothing refers to them. */
  lemma DeleteSectionsKeepsConsistent(r: Repo, selected: set<nat>)
    requires Consistent(r)
    ensures Consistent(r.(sections := BatchDelete.Keep(r.sections, selected)))
  {
    var r' := r.(sections := BatchDelete.Keep(r.sections, selected));
    forall s <- r'.sections ensures SectionResolves(r', s) {
      BatchDelete.KeepMembers(r.sections, selected, s);
      assert SectionResolves(r, s);
    }
  }

  // ---------------------------------------------------------------------
  // Enrollment roles (main.py:1230-1275)

  /** What `add_role` reports before it changes anything. */
  function RoleCheck(roles: OMap<string>, displayName: string, canvasRole: string): (o: Outcome<RepoError>)
    ensures o.Pass? <==> displayName != "" && canvasRole != "" && !roles.Has(displayName)
  {
    if displayName == "" || canvasRole == "" then Fail(EmptyField)
    else if roles.Has(displayName) then Fail(DuplicateKey)
    else Pass
  }
}

/**
  The saved document and the load/save pair (main.py:172-241). The file is
  read as an already-parsed document; a missing or unreadable file is `None`.
  Loading re-keys terms by display name, rewrites section term names that
  hold a term id, and falls back to the legacy `departments` field and to
  the seed role map.
*/
module Persistence {
  import opened Wrappers
  import opened OrderedMaps
  import opened Entities
  import opened Repository

  /**
    The parsed JSON document. A collection the file lacks is an empty map
    (`data.get(..., {})`), except where the source tells absence apart.
  */
  datatype Document = Document(
    people: OMap<Fields>,
    courses: OMap<Fields>,
    programAreas: Option<OMap<Fields>>,
    departments: Option<OMap<Fields>>,
    terms: OMap<Fields>,
    accounts: OMap<Fields>,
    sections: seq<SectionDict>,
    enrollmentRoles: Option<OMap<string>>)
  {
    ghost predicate Valid() {
      && people.Valid() && courses.Valid() && terms.Valid() && accounts.Valid()
      && (programAreas.Some? ==> programAreas.value.Valid())
      && (departments.Some? ==> departments.value.Valid())
      && (enrollmentRoles.Some? ==> enrollmentRoles.value.Valid())
    }
  }

  /** A stored record lacks a field its `from_dict` reads with `data[...]`: the `KeyError` escapes `load_data`. */
  datatype LoadError = MissingField

  // ---------------------------------------------------------------------
  // save_data

  function Save(r: Repo): (d: Document)
    requires r.Valid()
    ensures d.Valid()
    ensures d.programAreas.Some? && d.departments.None? && d.enrollmentRoles == Some(r.enrollmentRoles)
    ensures d.people.keys == r.people.keys && d.courses.keys == r.courses.keys && d.terms.keys == r.terms.keys
    ensures d.accounts.keys == r.accounts.keys && d.programAreas.value.keys == r.programAreas.keys
    ensures |d.sections| == |r.sections|
  {
    Document(
      MapValues(r.people, PersonToDict),
      MapValues(r.courses, CourseToDict),
      Some(MapValues(r.programAreas, ProgramAreaToDict)),
      None,
      MapValues(r.terms, TermToDict),
      MapValues(r.accounts, AccountToDict),
      seq(|r.sections|, i requires 0 <= i < |r.sections| => SectionToDict(r.sections[i])),
      Some(r.enrollmentRoles))
  }

  // ---------------------------------------------------------------------
  // Reading the keyed collections

  /** `{k: read(v) for k, v in m.items()}`, failing when any record fails. */
  function ReadAll<V>(m: OMap<Fields>, read: Fields -> Option<V>): (r: Option<OMap<V>>)
    requires m.Valid()
    ensures r.Some? <==> forall k | k in m.entries :: read(m.entries[k]).Some?
    ensures r.Some? ==> r.value.Valid() && r.value.keys == m.keys && r.value.entries.Keys == m.entries.Keys
    ensures r.Some? ==> forall k | k in m.entries :: r.value.entries[k] == read(m.entries[k]).value
  {
    if forall k | k in m.entries :: read(m.entries[k]).Some?
    then Some(OMap(m.keys, map k | k in m.entries :: read(m.entries[k]).value))
    else None
  }

  function ReadSections(ds: seq<SectionDict>): (r: Option<seq<Section>>)
    ensures r.Some? <==> forall i | 0 <= i < |ds| :: SectionFromDict(ds[i]).Some?
    ensures r.Some? ==> |r.value| == |ds|
    ensures r.Some? ==> forall i | 0 <= i < |ds| :: r.value[i] == SectionFromDict(ds[i]).value
  {
    if ds == [] then Some([])
    else
      match (SectionFromDict(ds[0]), ReadSections(ds[1..]))
      case (Some(s), Some(ss)) => Some([s] + ss)
      case _ => None
  }

  // ---------------------------------------------------------------------
  // Re-keying terms by display name (main.py:182-191)

  /** `Term.from_dict`, then an empty name replaced by the term id. */
  function NormalTerm(d: Fields): (t: Term)
    ensures t.name == "" ==> t.termId == ""
    ensures t.termId == Lookup(d, "term_id", "") && t.shortCode == Lookup(d, "short_code", "")
    ensures Lookup(d, "name", "") != "" ==> t.name == d["name"]
  {
    var t := TermFromDict(d);
    if t.name == "" then t.(name := t.termId) else t
  }

  /** Index of the last record of `raw` whose normalised name is `name`, or -1. */
  function LastNamed(raw: seq<Fields>, name: string): (j: int)
    ensures -1 <= j < |raw|
    ensures 0 <= j ==> NormalTerm(raw[j]).name == name
    ensures forall j' | j < j' < |raw| :: NormalTerm(raw[j']).name != name
  {
    if raw == [] then -1
    else if NormalTerm(raw[|raw| - 1]).name == name then |raw| - 1
    else LastNamed(raw[..|raw| - 1], name)
  }

  /** Index of the last record of `raw` whose term id is `id`, or -1. */
  function LastWithId(raw: seq<Fields>, id: string): (j: int)
    ensures -1 <= j < |raw|
    ensures 0 <= j ==> NormalTerm(raw[j]).termId == id
    ensures forall j' | j < j' < |raw| :: NormalTerm(raw[j']).termId != id
  {
    if raw == [] then -1
    else if NormalTerm(raw[|raw| - 1]).termId == id then |raw| - 1
    else LastWithId(raw[..|raw| - 1], id)
  }

  /**
    The terms map and the term-id-to-name table built from the stored term
    records in file order (`self.terms[name] = term`,
    `term_id_to_name_map[term_id] = name`). Every term is keyed by its own
    name (an empty name only with an empty id), and every id in the table
    leads to a term of the map.
  */
  function TermsFold(raw: seq<Fields>): (r: (OMap<Term>, map<string, string>))
    ensures r.0.Valid()
    ensures forall k | k in r.0.entries :: r.0.entries[k].name == k && (k == "" ==> r.0.entries[k].termId == "")
    ensures forall id | id in r.1 :: r.1[id] in r.0.entries
  {
    if raw == [] then (Empty(), map[])
    else
      var n := |raw| - 1;
      var prev := TermsFold(raw[..n]);
      var t := NormalTerm(raw[n]);
      (prev.0.Put(t.name, t), prev.1[t.termId := t.name])
  }

  /**
    The terms map holds one term per distinct normalised name, and it is
    the last record with that name: a later record replaces an earlier one.
  */
  lemma {:induction false} TermsFoldNames(raw: seq<Fields>)
    ensures forall k :: k in TermsFold(raw).0.entries <==> 0 <= LastNamed(raw, k)
    ensures forall k | k in TermsFold(raw).0.entries ::
              TermsFold(raw).0.entries[k] == NormalTerm(raw[LastNamed(raw, k)])
  {
    if raw != [] {
      var n := |raw| - 1;
      TermsFoldNames(raw[..n]);
      var prev := TermsFold(raw[..n]).0;
      var t := NormalTerm(raw[n]);
      var e := TermsFold(raw).0.entries;
      TermsFoldSnoc(raw);
      forall k ensures (k in e <==> 0 <= LastNamed(raw, k)) && (k in e ==> e[k] == NormalTerm(raw[LastNamed(raw, k)])) {
        if k == t.name {
          assert LastNamed(raw, k) == n;
        } else {
          var j := LastNamed(raw[..n], k);
          assert LastNamed(raw, k) == j;
          assert 0 <= j ==> raw[..n][j] == raw[j];
        }
      }
    }
  }

  /** The id table maps each stored term id to the name of the last record carrying it. */
  lemma {:induction false} TermsFoldIds(raw: seq<Fields>)
    ensures forall id :: id in TermsFold(raw).1 <==> 0 <= LastWithId(raw, id)
    ensures forall id | id in TermsFold(raw).1 ::
              TermsFold(raw).1[id] == NormalTerm(raw[LastWithId(raw, id)]).name
  {
    if raw != [] {
      var n := |raw| - 1;
      TermsFoldIds(raw[..n]);
      var prev := TermsFold(raw[..n]).1;
      var t := NormalTerm(raw[n]);
      var ids := TermsFold(raw).1;
      TermsFoldSnoc(raw);
      forall id ensures (id in ids <==> 0 <= LastWithId(raw, id)) && (id in ids ==> ids[id] == NormalTerm(raw[LastWithId(raw, id)]).name) {
        if id == t.termId {
          assert LastWithId(raw, id) == n;
        } else {
          var j := LastWithId(raw[..n], id);
          assert LastWithId(raw, id) == j;
          assert 0 <= j ==> raw[..n][j] == raw[j];
        }
      }
    }
  }

  /** The last record's normalised term is stored under its name, and its id is mapped to that name. */
  lemma TermsFoldSnoc(raw: seq<Fields>)
    requires raw != []
    ensures var n := |raw| - 1; var (terms, ids) := TermsFold(raw[..n]); var t := NormalTerm(raw[n]);
      TermsFold(raw) == (terms.Put(t.name, t), ids[t.termId := t.name])
  {
  }

  /** The same step on a prefix. */
  lemma TermsFoldLast(raw: seq<Fields>, i: nat)
    requires i < |raw|
    ensures var (terms, ids) := TermsFold(raw[..i]); var t := NormalTerm(raw[i]);
      TermsFold(raw[..i + 1]) == (terms.Put(t.name, t), ids[t.termId := t.name])
  {
    assert raw[..i + 1][..i] == raw[..i];
  }

  /** The loop of `load_data` over the stored terms. */
  method LoadTerms(raw: OMap<Fields>) returns (terms: OMap<Term>, idToName: map<string, string>)
    requires raw.Valid()
    ensures (terms, idToName) == TermsFold(raw.Values())
  {
    var values := raw.Values();
    terms, idToName := Empty(), map[];
    assert values[..0] == [];
    for i := 0 to |values|
      invariant (terms, idToName) == TermsFold(values[..i])
    {
      var t := TermFromDict(values[i]);
      if t.name == "" {
        t := t.(name := t.termId);
      }
      terms := terms.Put(t.name, t);
      idToName := idToName[t.termId := t.name];
      TermsFoldLast(values, i);
    }
    assert values[..|values|] == values;
  }

  // ---------------------------------------------------------------------
  // Section term names that hold a term id (main.py:201-203)

  /**
    A section whose term name is non-empty, names no term, but is a known
    term id, is given that term's name; every other section is kept as is,
    and no other field ever changes.
  */
  function MigrateSection(s: Section, terms: OMap<Term>, idToName: map<string, string>): (r: Section)
    ensures r == s.(termName := r.termName)
    ensures (s.termName.Some? && s.termName.value != "" && !terms.Has(s.termName.value) && s.termName.value in idToName)
              ==> r.termName == Some(idToName[s.termName.value])
    ensures r.termName != s.termName ==>
              s.termName.Some? && s.termName.value != "" && !terms.Has(s.termName.value) && s.termName.value in idToName
  {
    match s.termName
    case Some(n) =>
      if n != "" && !terms.Has(n) && n in idToName then s.(termName := Some(idToName[n])) else s
    case None => s
  }

  method MigrateSections(sections: seq<Section>, terms: OMap<Term>, idToName: map<string, string>)
    returns (r: seq<Section>)
    ensures |r| == |sections|
    ensures forall i | 0 <= i < |sections| :: r[i] == MigrateSection(sections[i], terms, idToName)
  {
    r := sections;
    for i := 0 to |sections|
      invariant |r| == |sections|
      invariant forall j | 0 <= j < i :: r[j] == MigrateSection(sections[j], terms, idToName)
      invariant forall j | i <= j < |sections| :: r[j] == sections[j]
    {
      var s := r[i];
      if s.termName.Some? && s.termName.value != "" && !terms.Has(s.termName.value) {
        if s.termName.value in idToName {
          r := r[i := s.(termName := Some(idToName[s.termName.value]))];
        }
      }
    }
  }

  // ---------------------------------------------------------------------
  // load_data

  /** `data.get('program_areas', data.get('departments', {}))` */
  function StoredAreas(doc: Document): (m: OMap<Fields>)
    requires doc.Valid()
    ensures m.Valid()
  {
    if doc.programAreas.Some? then doc.programAreas.value
    else if doc.departments.Some? then doc.departments.value
    else Empty()
  }

  /**
    The store a parsed document loads into. Loading fails exactly when one
    of the readers fails, that is, when a stored person, course, program
    area, account or section lacks a field its `from_dict` requires.
    Otherwise the keyed collections keep the
    stored keys in file order, the terms are the term fold, and each stored
    section is read and migrated in place.
  */
  function LoadDocument(doc: Document): (r: Result<Repo, LoadError>)
    requires doc.Valid()
    ensures r.Failure? <==>
              || ReadAll(doc.people, PersonFromDict).None? || ReadAll(doc.courses, CourseFromDict).None?
              || ReadAll(StoredAreas(doc), ProgramAreaFromDict).None? || ReadAll(doc.accounts, AccountFromDict).None?
              || ReadSections(doc.sections).None?
    ensures r.Success? ==> r.value.Valid()
    ensures r.Success? ==>
              && r.value.people.keys == doc.people.keys && r.value.courses.keys == doc.courses.keys
              && r.value.accounts.keys == doc.accounts.keys
    ensures r.Success? ==> var (terms, ids) := TermsFold(doc.terms.Values());
              && r.value.terms == terms
              && |r.value.sections| == |doc.sections|
              && ReadSections(doc.sections).Some?
              && forall i | 0 <= i < |doc.sections| ::
                   r.value.sections[i] == MigrateSection(ReadSections(doc.sections).value[i], terms, ids)
  {
    var people := ReadAll(doc.people, PersonFromDict);
    var courses := ReadAll(doc.courses, CourseFromDict);
    var areas := ReadAll(StoredAreas(doc), ProgramAreaFromDict);
    var (terms, idToName) := TermsFold(doc.terms.Values());
    var accounts := ReadAll(doc.accounts, AccountFromDict);
    var sections := ReadSections(doc.sections);
    var roles := if doc.enrollmentRoles.Some? then doc.enrollmentRoles.value else DefaultRoles();
    if people.None? || courses.None? || areas.None? || accounts.None? || sections.None? then Failure(MissingField)
    else
      var ss := sections.value;
      Success(Repo(people.value, courses.value, terms, accounts.value, areas.value, roles,
                   seq(|ss|, i requires 0 <= i < |ss| => MigrateSection(ss[i], terms, idToName))))
  }

  /**
    The reading part of `load_data` on a parsed document: the records, the
    loop over the stored terms and the loop over the stored sections.
  */
  method ReadDocument(doc: Document) returns (res: Result<Repo, LoadError>)
    requires doc.Valid()
    ensures res == LoadDocument(doc)
  {
    var ps := ReadAll(doc.people, PersonFromDict);
    var cs := ReadAll(doc.courses, CourseFromDict);
    var areas := ReadAll(StoredAreas(doc), ProgramAreaFromDict);
    var ts, idToName := LoadTerms(doc.terms);
    var accs := ReadAll(doc.accounts, AccountFromDict);
    var ss := ReadSections(doc.sections);
    if ps.None? || cs.None? || areas.None? || accs.None? || ss.None? {
      return Failure(MissingField);
    }
    var migrated := MigrateSections(ss.value, ts, idToName);
    var roles := if doc.enrollmentRoles.Some? then doc.enrollmentRoles.value else DefaultRoles();
    assert migrated == seq(|ss.value|, i requires 0 <= i < |ss.value| => MigrateSection(ss.value[i], ts, idToName));
    res := Success(Repo(ps.value, cs.value, ts, accs.value, areas.value, roles, migrated));
  }

  /** `load_data` as a whole: no readable file starts from `initialize_empty`. */
  function Loaded(stored: Option<Document>): (r: Result<Repo, LoadError>)
    requires stored.Some? ==> stored.value.Valid()
    ensures stored.None? ==> r == Success(EmptyRepo())
  {
    if stored.None? then Success(EmptyRepo()) else LoadDocument(stored.value)
  }

  // ---------------------------------------------------------------------
  // Properties of loading

  /**
    After loading, every term is keyed by its own non-empty name (or both
    name and id are empty), and every section whose stored term name was a
    term id rather than a term name now names a loaded term.
  */
  lemma LoadedTermsAreKeyedByName(doc: Document)
    requires doc.Valid() && LoadDocument(doc).Success?
    ensures var r := LoadDocument(doc).value;
      forall k | k in r.terms.entries :: r.terms.entries[k].name == k && (k == "" ==> r.terms.entries[k].termId == "")
    ensures var r := LoadDocument(doc).value; var ids := TermsFold(doc.terms.Values()).1;
      forall i | 0 <= i < |doc.sections| ::
        var stored := SectionFromDict(doc.sections[i]).value.termName;
        (stored.Some? && stored.value != "" && !r.terms.Has(stored.value) && stored.value in ids) ==>
          r.sections[i].termName.Some? && r.terms.Has(r.sections[i].termName.value)
  {
    var (terms, ids) := TermsFold(doc.terms.Values());
    var r := LoadDocument(doc).value;
    forall i | 0 <= i < |doc.sections|
      ensures var stored := SectionFromDict(doc.sections[i]).value.termName;
        (stored.Some? && stored.value != "" && !r.terms.Has(stored.value) && stored.value in ids) ==>
          r.sections[i].termName.Some? && r.terms.Has(r.sections[i].termName.value)
    {
      assert r.sections[i] == MigrateSection(SectionFromDict(doc.sections[i]).value, terms, ids);
    }
  }

  /**
    A stored section without `term_name` loads with no term, whatever legacy
    `term_id` field it carries: the `term_id` branch of `load_data` never runs.
  */
  lemma LegacyTermIdIsIgnored(doc: Document, i: nat)
    requires doc.Valid() && LoadDocument(doc).Success? && i < |doc.sections|
    requires "term_name" !in doc.sections[i].fields
    ensures LoadDocument(doc).value.sections[i].termName == None
  {
  }

  /** A present role map is kept as stored, even when empty; only an absent one becomes the seed map. */
  lemma LoadedRoles(doc: Document)
    requires doc.Valid() && LoadDocument(doc).Success?
    ensures doc.enrollmentRoles.Some? ==> LoadDocument(doc).value.enrollmentRoles == doc.enrollmentRoles.value
    ensures doc.enrollmentRoles.None? ==> LoadDocument(doc).value.enrollmentRoles == DefaultRoles()
  {
  }

  /** People, courses and accounts are loaded as the records `from_dict` reads, under their stored keys. */
  lemma LoadedRecords(doc: Document)
    requires doc.Valid() && LoadDocument(doc).Success?
    ensures LoadDocument(doc).value.people == ReadAll(doc.people, PersonFromDict).value
    ensures LoadDocument(doc).value.courses == ReadAll(doc.courses, CourseFromDict).value
    ensures LoadDocument(doc).value.accounts == ReadAll(doc.accounts, AccountFromDict).value
  {
  }

  /** The current `program_areas` field wins over the legacy `departments` field. */
  lemma LoadedAreasPreferCurrentField(doc: Document)
    requires doc.Valid() && LoadDocument(doc).Success?
    ensures doc.programAreas.Some? ==>
              LoadDocument(doc).value.programAreas == ReadAll(doc.programAreas.value, ProgramAreaFromDict).value
    ensures doc.programAreas.None? && doc.departments.Some? ==>
              LoadDocument(doc).value.programAreas == ReadAll(doc.departments.value, ProgramAreaFromDict).value
    ensures doc.programAreas.None? && doc.departments.None? ==> LoadDocument(doc).value.programAreas == Empty()
  {
  }

  // ---------------------------------------------------------------------
  // Round trip: save then load

  /**
    A store that loading would not change: each term is keyed by its own
    name and has one, each course portion is upper-case, and no section's
    term name is a term id standing in for a missing term name.
  */
  ghost predicate Normalised(r: Repo) {
    && (forall k | k in r.terms.entries ::
          r.terms.entries[k].name == k && (k == "" ==> r.terms.entries[k].termId == ""))
    && (forall k | k in r.courses.entries :: IsUpper(r.courses.entries[k].courseIdPortion))
    && (forall s <- r.sections ::
          s.termName.None? || s.termName.value == "" || r.terms.Has(s.termName.value)
          || forall k | k in r.terms.entries :: r.terms.entries[k].termId != s.termName.value)
  }

  lemma ReadAllRoundTrip<V>(m: OMap<V>, write: V -> Fields, read: Fields -> Option<V>)
    requires m.Valid()
    requires forall k | k in m.entries :: read(write(m.entries[k])) == Some(m.entries[k])
    ensures ReadAll(MapValues(m, write), read) == Some(m)
  {
    var r := ReadAll(MapValues(m, write), read);
    assert r.value.entries == m.entries;
  }

  /** A saved term record normalises back to the term. */
  lemma NormalTermOfSaved(t: Term)
    requires t.name == "" ==> t.termId == ""
    ensures NormalTerm(TermToDict(t)) == t
  {
    TermRoundTrip(t);
  }

  /** The entries of `entries` under the keys listed in `keys`. */
  function KeyedBy(keys: seq<string>, entries: map<string, Term>): (m: map<string, Term>)
    requires forall k <- keys :: k in entries
    ensures m.Keys == set k | k in keys
  {
    map k | k in keys :: entries[k]
  }

  lemma KeyedByStep(keys: seq<string>, entries: map<string, Term>)
    requires keys != [] && forall k <- keys :: k in entries
    ensures var n := |keys| - 1;
      KeyedBy(keys, entries) == KeyedBy(keys[..n], entries)[keys[n] := entries[keys[n]]]
    ensures keys == keys[..|keys| - 1] + [keys[|keys| - 1]]
  {
    var n := |keys| - 1;
    assert keys == keys[..n] + [keys[n]];
  }

  /**
    Records that normalise, one by one, to the terms listed under distinct
    keys, each keyed by its own name, fold back into exactly those keys and
    terms, in that order.
  */
  lemma {:induction false} TermsFoldOfRecords(raw: seq<Fields>, keys: seq<string>, entries: map<string, Term>)
    requires |raw| == |keys|
    requires forall i, j | 0 <= i < j < |keys| :: keys[i] != keys[j]
    requires forall j | 0 <= j < |keys| :: keys[j] in entries && NormalTerm(raw[j]) == entries[keys[j]]
    requires forall j | 0 <= j < |keys| :: entries[keys[j]].name == keys[j]
    ensures TermsFold(raw).0 == OMap(keys, KeyedBy(keys, entries))
  {
    if raw != [] {
      var n := |raw| - 1;
      var raw', keys' := raw[..n], keys[..n];
      forall j | 0 <= j < n ensures keys'[j] in entries && NormalTerm(raw'[j]) == entries[keys'[j]] {
        assert raw'[j] == raw[j] && keys'[j] == keys[j];
      }
      forall j | 0 <= j < n ensures entries[keys'[j]].name == keys'[j] {
        assert keys'[j] == keys[j];
      }
      forall i, j | 0 <= i < j < n ensures keys'[i] != keys'[j] {
        assert keys'[i] == keys[i] && keys'[j] == keys[j];
      }
      TermsFoldOfRecords(raw', keys', entries);
      TermsFoldStep(raw, keys, entries);
    }
  }

  /** One step of the fold: the last record adds its term under a key not seen before. */
  lemma TermsFoldStep(raw: seq<Fields>, keys: seq<string>, entries: map<string, Term>)
    requires |raw| == |keys| > 0
    requires forall k <- keys :: k in entries
    requires keys[|keys| - 1] !in keys[..|keys| - 1]
    requires NormalTerm(raw[|raw| - 1]) == entries[keys[|keys| - 1]]
    requires entries[keys[|keys| - 1]].name == keys[|keys| - 1]
    requires TermsFold(raw[..|raw| - 1]).0 == OMap(keys[..|keys| - 1], KeyedBy(keys[..|keys| - 1], entries))
    ensures TermsFold(raw).0 == OMap(keys, KeyedBy(keys, entries))
  {
    var n := |raw| - 1;
    var prev := TermsFold(raw[..n]).0;
    var t := NormalTerm(raw[n]);
    KeyedByStep(keys, entries);
    assert keys[n] !in prev.entries;
    TermsFoldSnoc(raw);
  }

  /** The saved record at each position normalises back to the term under that position's key. */
  lemma SavedTermRecords(terms: OMap<Term>)
    requires terms.Valid()
    requires forall k | k in terms.entries ::
               terms.entries[k].name == k && (k == "" ==> terms.entries[k].termId == "")
    ensures var values := MapValues(terms, TermToDict).Values();
      |values| == |terms.keys| &&
      forall j | 0 <= j < |terms.keys| ::
        terms.keys[j] in terms.entries && NormalTerm(values[j]) == terms.entries[terms.keys[j]]
  {
    var saved := MapValues(terms, TermToDict);
    forall j | 0 <= j < |terms.keys|
      ensures terms.keys[j] in terms.entries && NormalTerm(saved.Values()[j]) == terms.entries[terms.keys[j]]
    {
      var k := terms.keys[j];
      assert saved.Values()[j] == TermToDict(terms.entries[k]);
      NormalTermOfSaved(terms.entries[k]);
    }
  }

  lemma KeyedByAll(keys: seq<string>, entries: map<string, Term>)
    requires forall k :: k in entries <==> k in keys
    ensures KeyedBy(keys, entries) == entries
  {
  }

  /** Loading the saved term records rebuilds the terms map, order included. */
  lemma TermsFoldOfSaved(terms: OMap<Term>)
    requires terms.Valid()
    requires forall k | k in terms.entries ::
               terms.entries[k].name == k && (k == "" ==> terms.entries[k].termId == "")
    ensures TermsFold(MapValues(terms, TermToDict).Values()).0 == terms
  {
    SavedTermRecords(terms);
    TermsFoldOfRecords(MapValues(terms, TermToDict).Values(), terms.keys, terms.entries);
    KeyedByAll(terms.keys, terms.entries);
  }

  /** The id table built from the saved records knows exactly the saved terms' ids. */
  lemma SavedTermIds(terms: OMap<Term>, id: string)
    requires terms.Valid()
    requires forall k | k in terms.entries ::
               terms.entries[k].name == k && (k == "" ==> terms.entries[k].termId == "")
    ensures id in TermsFold(MapValues(terms, TermToDict).Values()).1 <==>
              exists k | k in terms.entries :: terms.entries[k].termId == id
  {
    var values := MapValues(terms, TermToDict).Values();
    TermsFoldIds(values);
    if id in TermsFold(values).1 {
      var j := LastWithId(values, id);
      NormalTermOfSaved(terms.entries[terms.keys[j]]);
      assert terms.entries[terms.keys[j]].termId == id;
    }
    if exists k | k in terms.entries :: terms.entries[k].termId == id {
      var k :| k in terms.entries && terms.entries[k].termId == id;
      var j :| 0 <= j < |terms.keys| && terms.keys[j] == k;
      NormalTermOfSaved(terms.entries[k]);
      assert NormalTerm(values[j]).termId == id;
    }
  }

  /** Loading leaves every saved section of a normalised store as it was. */
  lemma SavedSectionsStay(r: Repo)
    requires r.Valid() && Normalised(r)
    ensures var (terms, idToName) := TermsFold(Save(r).terms.Values());
      forall s <- r.sections :: MigrateSection(s, terms, idToName) == s
  {
    var (terms, idToName) := TermsFold(Save(r).terms.Values());
    TermsFoldOfSaved(r.terms);
    forall s <- r.sections ensures MigrateSection(s, terms, idToName) == s {
      if s.termName.Some? && s.termName.value != "" && !terms.Has(s.termName.value) {
        SavedTermIds(r.terms, s.termName.value);
      }
    }
  }

  /** The stored sections of a saved store read back as the store's sections. */
  lemma SavedSectionsRead(r: Repo)
    requires r.Valid()
    ensures ReadSections(Save(r).sections) == Some(r.sections)
  {
    var ds := Save(r).sections;
    forall i | 0 <= i < |r.sections| ensures SectionFromDict(ds[i]) == Some(r.sections[i]) {
      assert ds[i] == SectionToDict(r.sections[i]);
      SectionRoundTrip(r.sections[i]);
    }
    assert |ds| == |r.sections|;
    assert ReadSections(ds).value == r.sections;
  }

  /** The saved keyed collections read back as the store's collections. */
  lemma SavedRecordsRead(r: Repo)
    requires r.Valid() && Normalised(r)
    ensures ReadAll(Save(r).people, PersonFromDict) == Some(r.people)
    ensures ReadAll(Save(r).courses, CourseFromDict) == Some(r.courses)
    ensures ReadAll(StoredAreas(Save(r)), ProgramAreaFromDict) == Some(r.programAreas)
    ensures ReadAll(Save(r).accounts, AccountFromDict) == Some(r.accounts)
  {
    forall k | k in r.people.entries ensures PersonFromDict(PersonToDict(r.people.entries[k])) == Some(r.people.entries[k]) {
      PersonRoundTrip(r.people.entries[k]);
    }
    ReadAllRoundTrip(r.people, PersonToDict, PersonFromDict);
    forall k | k in r.courses.entries ensures CourseFromDict(CourseToDict(r.courses.entries[k])) == Some(r.courses.entries[k]) {
      CourseRoundTrip(r.courses.entries[k]);
    }
    ReadAllRoundTrip(r.courses, CourseToDict, CourseFromDict);
    ReadAllRoundTrip(r.programAreas, ProgramAreaToDict, ProgramAreaFromDict);
    ReadAllRoundTrip(r.accounts, AccountToDict, AccountFromDict);
  }

  /** The loaded sections of a saved normalised store are the store's sections. */
  lemma SavedSectionsLoad(r: Repo)
    requires r.Valid() && Normalised(r)
    ensures var (terms, idToName) := TermsFold(Save(r).terms.Values()); var ss := r.sections;
      seq(|ss|, i requires 0 <= i < |ss| => MigrateSection(ss[i], terms, idToName)) == r.sections
  {
    SavedSectionsStay(r);
    var (terms, idToName) := TermsFold(Save(r).terms.Values());
    var ss := r.sections;
    var migrated := seq(|ss|, i requires 0 <= i < |ss| => MigrateSection(ss[i], terms, idToName));
    assert forall i | 0 <= i < |ss| :: ss[i] in r.sections;
    assert migrated == r.sections;
  }

  /** Saving a normalised store and loading the document gives the same store back. */
  lemma SaveLoadRoundTrip(r: Repo)
    requires r.Valid() && Normalised(r)
    ensures LoadDocument(Save(r)) == Success(r)
  {
    SavedRecordsRead(r);
    TermsFoldOfSaved(r.terms);
    SavedSectionsRead(r);
    SavedSectionsLoad(r);
  }
}

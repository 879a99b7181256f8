/**
  The entity records of the tool (main.py:49-157): program areas, people,
  courses, terms, accounts, enrollments and sections. Each record turns into
  a flat field map (`to_dict`) and back (`from_dict`); reading back fills in
  the documented defaults and fails where the source's `data[...]` lookup
  would raise `KeyError`.
*/
module Entities {
  import opened Wrappers

  /** A flat record: field name to text. An absent key is a missing field. */
  type Fields = map<string, string>

  datatype ProgramArea = ProgramArea(name: string)

  datatype Person = Person(name: string, userId: string, programAreaName: string)

  datatype Course = Course(shortName: string, longName: string, courseIdPortion: string, programAreaName: string)

  datatype Term = Term(termId: string, name: string, shortCode: string)

  datatype Account = Account(accountId: string)

  datatype Enrollment = Enrollment(userId: string, role: string, status: string)

  /** `term_name` is `None` when the stored record had none (`data.get('term_name')`). */
  datatype Section = Section(
    courseIdPortion: string,
    termName: Option<string>,
    accountId: string,
    sectionNumber: string,
    status: string,
    startDate: string,
    endDate: string,
    enrollments: seq<Enrollment>)

  /**
    The stored form of a section: its scalar fields, and its list of
    enrollment records when the key `enrollments` is present. A `None`
    term name is stored as an absent `term_name` field, which `from_dict`
    reads back the same way as a JSON null.
  */
  datatype SectionDict = SectionDict(fields: Fields, enrollments: Option<seq<Fields>>)

  /** The default status of enrollments and sections. */
  const Active := "active"

  // ---------------------------------------------------------------------
  // Upper-casing of course id portions

  predicate IsLower(c: char) {
    'a' <= c <= 'z'
  }

  predicate IsUpper(s: string) {
    forall i | 0 <= i < |s| :: !IsLower(s[i])
  }

  function UpperChar(c: char): char {
    if IsLower(c) then (c as int - 32) as char else c
  }

  /** `str.upper()` restricted to ASCII letters. */
  function Upper(s: string): (r: string)
    ensures |r| == |s| && IsUpper(r)
    ensures forall i | 0 <= i < |s| ::
              if IsLower(s[i]) then r[i] as int == s[i] as int - 32 else r[i] == s[i]
    ensures IsUpper(s) ==> r == s
  {
    if s == [] then [] else [UpperChar(s[0])] + Upper(s[1..])
  }

  lemma UpperIdempotent(s: string)
    ensures Upper(Upper(s)) == Upper(s)
  {
  }

  // ---------------------------------------------------------------------
  // Constructors with defaults

  /** `Course(...)`: the stored portion is always the upper-cased argument. */
  function NewCourse(shortName: string, longName: string, portion: string, programAreaName: string): (c: Course)
    ensures c.courseIdPortion == Upper(portion)
    ensures IsUpper(c.courseIdPortion) && |c.courseIdPortion| == |portion|
    ensures IsUpper(portion) ==> c.courseIdPortion == portion
    ensures c.shortName == shortName && c.longName == longName && c.programAreaName == programAreaName
  {
    Course(shortName, longName, Upper(portion), programAreaName)
  }

  /** `d.get(key, default)` */
  function Lookup(d: Fields, key: string, default: string): string {
    if key in d then d[key] else default
  }

  // ---------------------------------------------------------------------
  // to_dict

  function ProgramAreaToDict(p: ProgramArea): Fields {
    map["name" := p.name]
  }

  function PersonToDict(p: Person): Fields {
    map["name" := p.name, "user_id" := p.userId, "program_area_name" := p.programAreaName]
  }

  function CourseToDict(c: Course): Fields {
    map["short_name" := c.shortName, "long_name" := c.longName,
        "course_id_portion" := c.courseIdPortion, "program_area_name" := c.programAreaName]
  }

  function TermToDict(t: Term): Fields {
    map["term_id" := t.termId, "name" := t.name, "short_code" := t.shortCode]
  }

  function AccountToDict(a: Account): Fields {
    map["account_id" := a.accountId]
  }

  function EnrollmentToDict(e: Enrollment): Fields {
    map["user_id" := e.userId, "role" := e.role, "status" := e.status]
  }

  function SectionToDict(s: Section): SectionDict {
    var scalars := map["course_id_portion" := s.courseIdPortion, "account_id" := s.accountId,
                       "section_number" := s.sectionNumber, "status" := s.status,
                       "start_date" := s.startDate, "end_date" := s.endDate];
    var fields := if s.termName.Some? then scalars["term_name" := s.termName.value] else scalars;
    SectionDict(fields, Some(seq(|s.enrollments|, i requires 0 <= i < |s.enrollments| => EnrollmentToDict(s.enrollments[i]))))
  }

  // ---------------------------------------------------------------------
  // from_dict

  function ProgramAreaFromDict(d: Fields): (r: Option<ProgramArea>)
    ensures r.Some? <==> "name" in d
    ensures r.Some? ==> r.value.name == d["name"]
  {
    if "name" in d then Some(ProgramArea(d["name"])) else None
  }

  function PersonFromDict(d: Fields): (r: Option<Person>)
    ensures r.Some? <==> "name" in d && "user_id" in d
    ensures r.Some? ==> r.value.name == d["name"] && r.value.userId == d["user_id"]
    ensures r.Some? ==> r.value.programAreaName == Lookup(d, "program_area_name", "")
  {
    if "name" in d && "user_id" in d
    then Some(Person(d["name"], d["user_id"], Lookup(d, "program_area_name", "")))
    else None
  }

  /** Reading a course back upper-cases its portion, like the constructor. */
  function CourseFromDict(d: Fields): (r: Option<Course>)
    ensures r.Some? <==> "short_name" in d && "long_name" in d && "course_id_portion" in d
    ensures r.Some? ==> r.value.courseIdPortion == Upper(d["course_id_portion"])
    ensures r.Some? ==> r.value.shortName == d["short_name"] && r.value.longName == d["long_name"]
    ensures r.Some? ==> r.value.programAreaName == Lookup(d, "program_area_name", "")
  {
    if "short_name" in d && "long_name" in d && "course_id_portion" in d
    then Some(NewCourse(d["short_name"], d["long_name"], d["course_id_portion"], Lookup(d, "program_area_name", "")))
    else None
  }

  /** Every term field is read with `.get(..., '')`, so reading a term never fails. */
  function TermFromDict(d: Fields): (t: Term)
    ensures t.termId == (if "term_id" in d then d["term_id"] else "")
    ensures t.name == (if "name" in d then d["name"] else "")
    ensures t.shortCode == (if "short_code" in d then d["short_code"] else "")
  {
    Term(Lookup(d, "term_id", ""), Lookup(d, "name", ""), Lookup(d, "short_code", ""))
  }

  function AccountFromDict(d: Fields): (r: Option<Account>)
    ensures r.Some? <==> "account_id" in d
    ensures r.Some? ==> r.value.accountId == d["account_id"]
  {
    if "account_id" in d then Some(Account(d["account_id"])) else None
  }

  function EnrollmentFromDict(d: Fields): (r: Option<Enrollment>)
    ensures r.Some? <==> "user_id" in d && "role" in d
    ensures r.Some? ==> r.value.userId == d["user_id"] && r.value.role == d["role"]
    ensures r.Some? ==> r.value.status == (if "status" in d then d["status"] else Active)
  {
    if "user_id" in d && "role" in d
    then Some(Enrollment(d["user_id"], d["role"], Lookup(d, "status", Active)))
    else None
  }

  /** Reads a list of enrollment records; fails when any one of them fails. */
  function EnrollmentsFromDicts(ds: seq<Fields>): (r: Option<seq<Enrollment>>)
    ensures r.Some? <==> forall i | 0 <= i < |ds| :: EnrollmentFromDict(ds[i]).Some?
    ensures r.Some? ==> |r.value| == |ds|
    ensures r.Some? ==> forall i | 0 <= i < |ds| :: r.value[i] == EnrollmentFromDict(ds[i]).value
  {
    if ds == [] then Some([])
    else
      match (EnrollmentFromDict(ds[0]), EnrollmentsFromDicts(ds[1..]))
      case (Some(e), Some(es)) => Some([e] + es)
      case _ => None
  }

  /**
    `Section.from_dict`: the course portion, account and section number are
    required; a missing status reads as "active", missing dates as "", a
    missing enrollment list as the empty list.
  */
  function SectionFromDict(sd: SectionDict): (r: Option<Section>)
    ensures r.Some? <==>
              && "course_id_portion" in sd.fields && "account_id" in sd.fields && "section_number" in sd.fields
              && (sd.enrollments.Some? ==>
                    forall i | 0 <= i < |sd.enrollments.value| :: EnrollmentFromDict(sd.enrollments.value[i]).Some?)
    ensures r.Some? ==>
              && r.value.courseIdPortion == sd.fields["course_id_portion"]
              && r.value.accountId == sd.fields["account_id"]
              && r.value.sectionNumber == sd.fields["section_number"]
    ensures r.Some? ==> r.value.termName == (if "term_name" in sd.fields then Some(sd.fields["term_name"]) else None)
    ensures r.Some? ==> r.value.status == (if "status" in sd.fields then sd.fields["status"] else Active)
    ensures r.Some? ==> r.value.startDate == (if "start_date" in sd.fields then sd.fields["start_date"] else "")
    ensures r.Some? ==> r.value.endDate == (if "end_date" in sd.fields then sd.fields["end_date"] else "")
    ensures r.Some? && sd.enrollments.None? ==> r.value.enrollments == []
    ensures r.Some? && sd.enrollments.Some? ==>
              && |r.value.enrollments| == |sd.enrollments.value|
              && forall i | 0 <= i < |sd.enrollments.value| ::
                   r.value.enrollments[i] == EnrollmentFromDict(sd.enrollments.value[i]).value
  {
    var f := sd.fields;
    if "course_id_portion" in f && "account_id" in f && "section_number" in f then
      var enrollments := if sd.enrollments.Some? then EnrollmentsFromDicts(sd.enrollments.value) else Some([]);
      if enrollments.None? then None
      else
        Some(Section(f["course_id_portion"], if "term_name" in f then Some(f["term_name"]) else None,
                     f["account_id"], f["section_number"], Lookup(f, "status", Active),
                     Lookup(f, "start_date", ""), Lookup(f, "end_date", ""), enrollments.value))
    else None
  }

  // ---------------------------------------------------------------------
  // Round trips: from_dict(to_dict(x)) reproduces x

  lemma ProgramAreaRoundTrip(p: ProgramArea)
    ensures ProgramAreaFromDict(ProgramAreaToDict(p)) == Some(p)
  {
  }

  lemma PersonRoundTrip(p: Person)
    ensures PersonFromDict(PersonToDict(p)) == Some(p)
  {
  }

  /** Holds for every course the constructor can build, since its portion is already upper-case. */
  lemma CourseRoundTrip(c: Course)
    requires IsUpper(c.courseIdPortion)
    ensures CourseFromDict(CourseToDict(c)) == Some(c)
  {
  }

  lemma TermRoundTrip(t: Term)
    ensures TermFromDict(TermToDict(t)) == t
  {
  }

  lemma AccountRoundTrip(a: Account)
    ensures AccountFromDict(AccountToDict(a)) == Some(a)
  {
  }

  lemma EnrollmentRoundTrip(e: Enrollment)
    ensures EnrollmentFromDict(EnrollmentToDict(e)) == Some(e)
  {
  }

  lemma SectionRoundTrip(s: Section)
    ensures SectionFromDict(SectionToDict(s)) == Some(s)
  {
    var ds := SectionToDict(s).enrollments.value;
    forall i | 0 <= i < |ds|
      ensures EnrollmentFromDict(ds[i]) == Some(s.enrollments[i])
    {
      EnrollmentRoundTrip(s.enrollments[i]);
    }
    assert EnrollmentsFromDicts(ds).value == s.enrollments;
  }
}

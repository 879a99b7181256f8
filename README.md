# Canvas SIS prep tool: the data layer in Dafny

The Canvas SIS prep tool keeps a small relational store for preparing
Canvas SIS import files. The store has five keyed collections: people by
user id, courses by course-id portion, terms by display name, accounts by
account id, and program areas by name. It also keeps a map from role
display names to Canvas roles, and an ordered list of sections. Each
section names a course, a term and an account, and owns a list of
enrollments.

This project models that store and the operations on it:

- `entities.dfy` (module `Entities`): the seven record types, their
  constructors and defaults, and `to_dict` / `from_dict`.
- `ordered_map.dfy` (module `OrderedMaps`): Python dicts with string keys
  and insertion order. Assigning to a present key keeps its place; a new
  key goes last. The raw export and the re-keying of terms on load both
  depend on this order.
- `persistence.dfy` (module `Persistence`): `load_data` on a parsed
  document and `save_data` as the document it writes. This covers the
  re-keying of terms by name, the rewrite of section term names that hold
  a term id, and the fallbacks for program areas and roles.
- `csv_import.dfy` (module `CsvImport`): the generic CSV import rule, the
  five importers, their dispatcher and the role upsert import, all over
  parsed tables.
- `csv_export.dfy` (module `CsvExport`): the raw dump of the collections
  and the three Canvas files (`courses.csv`, `sections.csv`,
  `enrollments.csv`) as rows.
- `repository.dfy` (module `Repository`): the store as a value, the checks
  the add, edit and delete handlers make, the edit cascade, and
  referential integrity (`Consistent`: every reference names a stored
  record).
- `batch_delete.dfy` (module `BatchDelete`): deleting list elements by a
  set of indices, highest index first. Sections and enrollments are
  deleted this way.
- `data_manager.dfy` (module `Manager`): the class `DataManager`. Its
  fields are the seven collections, and its methods run the loops above
  and the integrity-checked handler logic on those fields.

Where the tool's documentation and its code disagree, the model follows
the code:

- The documentation describes a migration of sections that carry only a
  legacy `term_id`. In the code, `Section.from_dict` always sets
  `term_name`, possibly to `None`, and never sets `term_id`. So that
  branch (main.py:197-200) cannot fire. Such a section loads with no term
  (`Persistence.LegacyTermIdIsIgnored`). Only the rewrite of a `term_name`
  that holds a term id takes effect.
- The raw export writes records in dict insertion order, not sorted. Only
  the UI lists are sorted.

## Model

| member | source | states |
|---|---|---|
| Entities.NewCourse | main.py:75-80 | A constructed course holds `Upper(portion)` as its course-id portion: upper-case and of the same length, and equal to the argument when that is already upper-case. The other fields are stored as given. |
| Entities.Upper | main.py:79 | Upper-casing keeps the length, maps each lower-case letter to its capital and every other character to itself, and leaves an upper-case string unchanged. |
| Entities.UpperIdempotent | main.py:79 | Upper-casing twice is the same as once. |
| Entities.ProgramAreaFromDict | main.py:56-58 | Reading succeeds exactly when `name` is present, and then takes it. |
| Entities.PersonFromDict | main.py:70-72 | Reading succeeds exactly when `name` and `user_id` are present. A missing `program_area_name` reads as "". |
| Entities.CourseFromDict | main.py:86-89 | Reading succeeds exactly when `short_name`, `long_name` and `course_id_portion` are present. The portion is upper-cased. A missing program area reads as "". |
| Entities.TermFromDict | main.py:101-103 | Reading never fails. Each field is the dict's value under its key, or "" when the key is missing. |
| Entities.AccountFromDict | main.py:113-115 | Reading succeeds exactly when `account_id` is present. |
| Entities.EnrollmentFromDict | main.py:127-129 | Reading succeeds exactly when `user_id` and `role` are present, and takes both from the dict. The status is the stored one, or "active" when it is missing. |
| Entities.EnrollmentsFromDicts | main.py:156 | The list reads exactly when every record reads, element by element and in order. |
| Entities.SectionFromDict | main.py:152-157 | Reading succeeds exactly when the portion, the account and the section number are present and every stored enrollment can be read. Those three fields are taken from the dict. The term name is the stored one, or none. The status is the stored one, or "active". Each date is the stored one, or "". The enrollments are the stored ones read one by one, in order, or the empty list when none are stored. |
| Entities.ProgramAreaRoundTrip | main.py:49-58 | `from_dict(to_dict(p))` reproduces the program area. |
| Entities.PersonRoundTrip | main.py:61-72 | `from_dict(to_dict(p))` reproduces the person. |
| Entities.CourseRoundTrip | main.py:75-89 | `from_dict(to_dict(c))` reproduces every course the constructor can build. |
| Entities.TermRoundTrip | main.py:92-103 | `from_dict(to_dict(t))` reproduces the term. |
| Entities.AccountRoundTrip | main.py:106-115 | `from_dict(to_dict(a))` reproduces the account. |
| Entities.EnrollmentRoundTrip | main.py:118-129 | `from_dict(to_dict(e))` reproduces the enrollment. |
| Entities.SectionRoundTrip | main.py:132-157 | `from_dict(to_dict(s))` reproduces the section with all its enrollments. |
| BatchDelete.DeleteDescending | main.py:946-948 | Deleting the selected indices one at a time, highest first, leaves exactly the unselected elements in their original order. |
| BatchDelete.Keep | main.py:946-948 | The reference result of a batch delete is never longer than the list and keeps only elements of the list. |
| BatchDelete.KeepLength | main.py:946-948 | Deleting a set of valid indices shortens the list by the size of the set. |
| BatchDelete.KeepMembers | main.py:946-948 | An element survives exactly when it sits at some unselected index. |
| BatchDelete.KeepStep | main.py:946-948 | Deleting an index below every index already deleted removes the element at that same position of the shortened list. This is why descending order works. |
| BatchDelete.AscendingOrderShifts | main.py:946-948 | Deleting in ascending order would hit the wrong element: removing indices 0 then 1 of [10, 20, 30] leaves [20], not [30]. |
| Repository.DefaultRoles | main.py:210-216 | The seed role map has four entries: Student to student, Teaching Assistant to ta, Instructor to teacher, Program Manager to Program Manager. |
| Repository.EmptyRepo | main.py:218-225 | `initialize_empty` leaves every collection empty, no sections, and the seed role map. |
| Repository.DialogFields | main.py:955-961 | Each kind's dialog collects its key field. |
| Repository.AddCheck | main.py:975-987 | An add passes exactly when every dialog field but the program area (the key included) is filled in and the key is not taken. An empty field is reported before a taken key, and a passing add has a non-empty key. |
| Repository.EditCheck | main.py:1036-1046 | An edit passes exactly when every dialog field but the read-only key and the program area is filled in and the new key is either the old one or not taken. An empty field is reported first. |
| Repository.WithEntryStores | main.py:991 | Storing a record makes its key present, leaves every other key of that kind and every other kind as it was, and leaves sections and roles alone. The kind's map becomes the old map with the key bound to the kind's `*FromArgs(data)` record (`constructors[kind](**data)`). Every other record of the kind keeps its value. No other field of the store changes. |
| Repository.WithoutEntryRemoves | main.py:1056 | Deleting a key makes it absent and leaves every other key of every kind as it was. |
| Repository.RenameTermInSections | main.py:1048-1050 | Exactly the sections whose term name is the old key now name the new key. All other sections are unchanged. |
| Repository.Cascade | main.py:1047-1055 | The reference update of a rename keeps every key of every kind and the number of sections. A person, course or account rename changes nothing. After a term rename no section names the old term; after a program-area rename no person or course names the old area. |
| Repository.Edited | main.py:1043-1060 | After a successful edit the new key is stored, a changed old key is gone, every other key of the kind is as before, and the other kinds keep their keys. |
| Repository.EditedStores | main.py:1042-1060 | An edit stores `*FromArgs(data)` under the new key, drops the old key, and keeps every other record of the kind. Nothing else changes, except the cascade: a term rename rewrites sections as `Cascade` does, and a program-area rename rewrites people and courses as `Cascade` does. An unchanged key rewrites nothing. |
| Repository.UpdateValues | main.py:1051-1055 | Updating every record in place gives the same keys in the same order, with each value passed through the update. |
| Repository.DeleteCheck | main.py:1096-1109 | Delete is refused exactly when the record is in use. A person is in use through any enrollment. A course, term or account is in use through any section. A program area is in use through any person or course. |
| Repository.DeleteGuardIsExact | main.py:1096-1119 | On a consistent store, deleting a stored record keeps it consistent if and only if nothing uses the record. |
| Repository.AddKeepsConsistent | main.py:976-991 | Adding a record whose program area resolves keeps a consistent store consistent. |
| Repository.EditKeepsConsistent | main.py:1037-1060 | An edit that passes the checks keeps the store consistent. Term and program-area renames carry their references along. Other kinds stay consistent when the key is kept or the old key is unused. |
| Repository.TermRenameKeepsConsistent | main.py:1043-1060 | Renaming a term retargets every section that used it, so a consistent store stays consistent. |
| Repository.AreaRenameKeepsConsistent | main.py:1043-1060 | Renaming a program area retargets every person and course that used it, so a consistent store stays consistent. |
| Repository.CourseRenameStrandsSections | main.py:1043-1060 | Renaming a course that a section uses leaves the store inconsistent, because the rename path has no cascade for courses. |
| Repository.UnchangedEditStrandsMiskeyedCourse | main.py:1030-1060 | A used course stored under a key other than its own portion (as a CSV import leaves a lower-case key) is shown with that portion in the read-only key field; saving the dialog unchanged takes the rename path and leaves the store inconsistent. |
| Repository.RenameMovesReferences | main.py:1043-1056 | After a term or program-area rename, the old key is gone and unused, and each section's term name is retargeted. |
| Repository.AppendKeepsUniqueUsers | main.py:1671-1676 | Appending an enrollment for a user not yet enrolled keeps each user at most once in the section. |
| Repository.DeleteKeepsUniqueUsers | main.py:1690-1692 | Deleting enrollments never creates a duplicate user. |
| Repository.EnrollCheck | main.py:1656-1676 | An enrollment is accepted exactly when the person is stored, a role is chosen, and the user is not already enrolled in the section. |
| Repository.WithEnrollment | main.py:1675-1676 | Adding an enrollment appends it to the chosen section's enrollments and changes no other field of that section, no other section and nothing else in the store. |
| Repository.WithoutEnrollments | main.py:1688-1692 | Deleting enrollments leaves the chosen section with exactly `Keep(old enrollments, selected)`: the unselected enrollments, in their old order, as `KeepMembers` and `KeepLength` state. It changes no other field, no other section and nothing else in the store. |
| Repository.EnrollKeepsConsistent | main.py:1656-1678 | An accepted enrollment keeps the store consistent and the section free of duplicate users. |
| Repository.UnenrollKeepsConsistent | main.py:1680-1692 | Deleting enrollments keeps the store consistent and the section free of duplicate users. |
| Repository.DeleteSectionsKeepsConsistent | main.py:934-948 | Deleting sections keeps a consistent store consistent. |
| Repository.RoleCheck | main.py:1230-1242 | A role is added exactly when both fields are non-empty and the display name is new. |
| Persistence.Save | main.py:227-234 | The saved document is valid. It holds every collection, writes program areas under `program_areas`, and has no `departments`. |
| Persistence.ReadAll | main.py:177-192 | Reading a keyed collection succeeds exactly when every record reads. It keeps the keys and their order, and stores each record as read. |
| Persistence.ReadSections | main.py:193 | Reading the sections succeeds exactly when every section reads, in order. |
| Persistence.NormalTerm | main.py:187-189 | A term with an empty name takes its term id as name. A non-empty stored name is kept. |
| Persistence.TermsFoldNames | main.py:183-191 | The loaded terms are keyed by normalised name. A name is present exactly when some record has it, and it holds the last such record. |
| Persistence.TermsFoldIds | main.py:185-191 | The id table knows exactly the stored term ids. Each id maps to the name of the last record carrying it. |
| Persistence.TermsFold | main.py:183-191 | Every loaded term is keyed by its own name, and an empty name comes with an empty id. Every id in the id table leads to a loaded term. |
| Persistence.TermsFoldOfRecords | main.py:183-191 | Records that normalise one by one to terms under distinct keys, each term named by its key, load back to exactly those keys and terms, in that order. |
| Persistence.LoadTerms | main.py:183-191 | The loop over the stored terms builds the terms map and the id table that the fold describes. |
| Persistence.MigrateSections | main.py:195-203 | A section is rewritten exactly when its term name is non-empty, names no term, and is a known term id. It then gets that term's name. Every other section is kept. |
| Persistence.MigrateSection | main.py:201-203 | Only a section's term name can change. When it is non-empty, names no loaded term and is a known term id, it becomes that term's name; when it changes, that was the case. |
| Persistence.LoadedTermsAreKeyedByName | main.py:183-203 | After loading, each term is keyed by its own name. A section whose stored term name was a term id now names a loaded term. |
| Persistence.LegacyTermIdIsIgnored | main.py:152-157 | A stored section without `term_name` loads with no term. |
| Persistence.LoadDocument | main.py:176-203 | Loading fails exactly when one of the record readers fails, that is, when a stored person, course, program area, account or section lacks a required field. A loaded store is valid, keeps the stored keys of people, courses and accounts in file order, holds the term fold's terms, and has each stored section read and migrated, in order. `LoadedRecords` and `LoadedAreasPreferCurrentField` state that each person, course, account and program-area record is the stored record as read. |
| Persistence.LoadedRecords | main.py:177-192 | The loaded people, courses and accounts are exactly the stored dictionaries read by `from_dict`, each under its stored key and in file order. |
| Persistence.LoadedRoles | main.py:194 | A stored role map is kept as stored, even when empty. An absent one becomes the seed map. |
| Persistence.LoadedAreasPreferCurrentField | main.py:179-181 | The loaded program areas are exactly the records read from `program_areas` when that field is present, else exactly those read from the legacy `departments` field, else the empty collection. |
| Persistence.Loaded | main.py:172-208 | No readable file gives the empty store with the seed roles. |
| Persistence.ReadDocument | main.py:176-203 | Reading a document (the records, the terms loop and the sections loop) gives exactly the loaded store or the failure. |
| Persistence.TermsFoldOfSaved | main.py:183-191 | Loading the saved term records rebuilds the terms map, in order. |
| Persistence.SavedTermIds | main.py:185-191 | The id table built from saved records knows exactly the saved terms' ids. |
| Persistence.SavedSectionsStay | main.py:195-203 | Loading leaves each saved section of a normalised store unchanged. |
| Persistence.SaveLoadRoundTrip | main.py:172-234 | Saving a normalised store and loading the document gives the same store back. |
| CsvImport.ImportRows | main.py:279-291 | The import loop gives the collection and counts of the row fold. |
| CsvImport.ImportCsv | main.py:267-293 | The import fails exactly when a required header is missing, and then reports the required headers. Otherwise every row is counted once, as added or skipped, and the number of keys grows by the added count. The existing keys stay at the front with their records. A key is present afterwards exactly when it was before or some complete row offers it, and a new key holds the record built from the first such row. |
| CsvImport.ImportFold | main.py:279-291 | Each row is counted once, as added or skipped. The key list grows by the added count, with the existing keys kept in front. |
| CsvImport.ImportFoldEntries | main.py:279-291 | An import never overwrites a record. Afterwards a key is present exactly when it was before or some complete row offers it. A new key holds the record from the first row that offers it, so duplicates within the file are skipped. |
| CsvImport.FirstOffer | main.py:282-287 | Finds the first row that carries a given non-blank key and every required cell, or reports that no row does. |
| CsvImport.RequiredHeaders | main.py:295-309 | Each importer requires its key field among its dialog fields, never `program_area_name`. |
| CsvImport.KindOf | main.py:255-261 | The dispatcher knows exactly people, courses, terms, accounts and program_areas. |
| CsvImport.ImportInto | main.py:254-265 | An unknown data type is reported exactly when the type is not one of the five. Missing headers are reported exactly when the type is known and its importer's required headers are missing. A successful import leaves a valid store. |
| CsvImport.ImportKind | main.py:295-309 | An importer fails exactly on a missing header, reporting its required headers. A successful import keeps every existing key of its kind, leaves every other kind's collection equal to what it was (keys and records), and leaves sections and roles alone. |
| CsvImport.ImportKeepsConsistent | main.py:302-309 | Importing terms, accounts or program areas keeps a consistent store consistent. |
| CsvImport.ImportedCourseKeepsRawKey | main.py:288-289 | Importing a one-row courses file into the empty store adds one course. It is stored under the portion as the file spells it ("cs101"), while the course holds "CS101". |
| CsvImport.ImportRoleRows | main.py:319-328 | The role import loop gives the role map and counts of the role fold. |
| CsvImport.ImportRoles | main.py:311-331 | The role import fails exactly when `display_name` or `canvas_role` is missing from the headers. |
| CsvImport.RolesFold | main.py:319-327 | Each row with both fields is counted once, as added or updated. Other rows are not counted. The display names grow by the added count, with the existing names kept in front. |
| CsvImport.RolesFoldEntries | main.py:319-328 | Afterwards a display name maps to the Canvas role of the last row naming it. Other names keep their roles. |
| CsvExport.ExportFiles | main.py:342-353 | The export loop writes the files the export fold describes. |
| CsvExport.ExportTable | main.py:342-352 | A known data type is written exactly when its collection is non-empty. The file is named after the type, uses its header list and holds the records' rows, and every row has exactly those columns. |
| CsvExport.ExportRowsKeys | main.py:343-351 | Every dumped record has exactly the columns of its kind's header list. |
| CsvExport.ExportRows | main.py:334-352 | For each kind, the dump has one row per stored record, and row `i` is the `to_dict` of the record under the `i`-th key in insertion order. |
| CsvExport.ExportFold | main.py:342-352 | There are never more files than requested types, and no file is written without rows. |
| CsvExport.ExportFoldFiles | main.py:342-353 | A file is written exactly when some requested data type produces it. |
| CsvExport.Translate | main.py:379 | A role with a mapping becomes its Canvas role. Any other role passes through unchanged. |
| CsvExport.CourseId | main.py:366 | A Canvas course id is the course-id portion, a hyphen, the term's short code, a hyphen and the section number: its length is their sum plus two, and each of the three components and both hyphens sit at their stated positions. |
| CsvExport.SectionId | main.py:367 | A Canvas section id is the term's short code, a hyphen, the course-id portion, a hyphen and the section number: as long as the course id, with each of the three components and both hyphens at their stated positions. |
| CsvExport.Contribution | main.py:362-382 | A section whose course or term is missing contributes nothing. Otherwise it contributes one course row and one section row that share the course id, the long name with the section number, the status and the dates, and one enrollment row per enrollment that points at both. |
| CsvExport.CanvasFold | main.py:361-382 | The sections give as many course rows as section rows, never more than there are sections. |
| CsvExport.BuildCanvasRows | main.py:361-382 | The generator loop builds the three row lists of the section fold. |
| CsvExport.AppendSection | main.py:362-382 | One pass of the generator loop appends exactly the rows that section contributes. |
| CsvExport.Generate | main.py:357-401 | Generation is refused exactly when there are no sections. Otherwise it yields three files, in order, named `FileNames(prefix)`. Each has its fixed header list and one row per generated course, section or enrollment of `CanvasFold`, in order. There are as many course rows as section rows, and no more than there are sections. |
| CsvExport.FileNames | main.py:383-397 | The three files are named courses.csv, sections.csv and enrollments.csv. A non-empty prefix is put in front with a space. |
| CsvExport.CanvasFoldShape | main.py:361-382 | Each section whose course and term are stored gives one course row, one section row and one row per enrollment. Other sections give nothing. Course and section rows pair up, and every enrollment row points at a section row with its course. |
| CsvExport.CanvasFoldAppend | main.py:361-382 | The rows for a list of sections are the rows of its parts, in order. |
| CsvExport.EnrollmentRolesTranslated | main.py:378-382 | Each enrollment row keeps the user and status, and carries the translated role. |
| CsvExport.GenerateExample | main.py:366-382 | Course CS101 with term short code FA25 and section 01 gives course_id "CS101-FA25-01", section_id "FA25-CS101-01", long name "Intro to CS-01", and role "student" for a Student. |
| Manager.DataManager.constructor | main.py:162-170 | A new manager holds the loaded store, or the empty store when there is no readable file. |
| Manager.DataManager.LoadData | main.py:172-208 | Load succeeds exactly when every record reads, and then replaces every collection with the loaded store. |
| Manager.DataManager.Replace | main.py:176-194 | Every collection is replaced by the loaded one, and nothing else remains of the old state. |
| Manager.DataManager.InitializeEmpty | main.py:218-225 | Empties every collection and restores the seed roles. |
| Manager.DataManager.SaveData | main.py:227-234 | Returns the document for the current store. |
| Manager.DataManager.ClearAll | main.py:243-252 | Empties the store. Reports failure exactly when removing the data file failed. |
| Manager.DataManager.ImportFromCsvFile | main.py:254-309 | Applies the dispatcher's import to the collections, or reports its error and changes nothing. |
| Manager.DataManager.ImportKindRows | main.py:276-291 | The import loop runs on the collection of the chosen kind in place. It leaves the store that the kind's importer describes and reports its counts. |
| Manager.DataManager.ImportRolesFromCsv | main.py:311-331 | Applies the role fold to the role map only, or reports missing headers and changes nothing. |
| Manager.DataManager.ExportDataToCsvs | main.py:333-355 | Returns the files of the raw dump. |
| Manager.DataManager.GenerateCsvFiles | main.py:357-404 | Returns the three Canvas files, or the refusal when there are no sections. |
| Manager.DataManager.AddItem | main.py:953-997 | Reports the required-field and duplicate-key check. On success, stores the new record and changes nothing else. |
| Manager.DataManager.EditItem | main.py:999-1072 | Reports the required-field and key-collision check. On success, runs the cascade, drops the old key and stores the rebuilt record. |
| Manager.DataManager.CascadeRename | main.py:1047-1055 | The cascade loops retarget sections for a term rename, and people and courses for a program-area rename. |
| Manager.DataManager.DeleteItem | main.py:1074-1119 | Refuses exactly while the record is in use. Otherwise removes the key; an absent key is a no-op. |
| Manager.DataManager.DeleteSections | main.py:934-948 | Leaves exactly the unselected sections, in order. |
| Manager.DataManager.AddEnrollment | main.py:1656-1678 | Reports the enrollment check. On success, appends the enrollment to that section only. |
| Manager.DataManager.DeleteEnrollments | main.py:1680-1692 | Leaves exactly the unselected enrollments of that section. |
| Manager.DataManager.AddRole | main.py:1230-1244 | Reports the role check. On success, adds the role. |
| Manager.DataManager.EditRole | main.py:1246-1259 | Sets the Canvas role of a stored display name without checking it, keeping the key order. |
| Manager.DataManager.DeleteRole | main.py:1261-1275 | Removes the display name. |
| Manager.AddedRoleTranslates | main.py:1242 | After a role is added, the generator writes its Canvas role for that display name and translates every other role as before. |
| Manager.DeletedRolePassesThrough | main.py:1273 | After a role is deleted, that display name passes through the generator unchanged. |

## Left out

- PyQt6 presentation is not modelled: widgets, tabs, themes, message boxes, refreshes and the autocomplete combo box. Confirmation prompts are taken as granted.
- File and OS I/O is not modelled: opening, reading and writing files, `os.path.exists`, `os.remove`, and the data-directory lookup. A load takes the parsed document, or none when the file is missing or unreadable. A save returns the document. `clear_all` takes whether the removal failed.
- JSON and CSV encoding and decoding (quoting, the UTF-8 BOM, `csv.DictReader` / `DictWriter`) are library code and are not modelled. Tables arrive parsed, and files leave as rows.
- `print` logging and the wording of messages are left out. Only success and error variants are kept.
- `inspect.signature` (main.py:276-277) is not modelled: the `*FromArgs` builders read only their constructor's parameters from a row.
- Parsing "name (id)" combo strings is left out. `AddEnrollment` takes the user id directly.
- The add-enrollment person check tests that the person is stored. The dialog's list can also be filtered by program area; that UI filter is not modelled.
- Entities.Upper: upper-cases ASCII letters only. Python's `str.upper` also maps non-ASCII letters, which the model does not.
- JSON values that are not strings (numbers, `null` other than a missing `term_name`) are not modelled; every stored field is a string.
- A CSV cell that is missing from a short row (`None`) reads as "", both in the checks and in the arguments passed to the constructor.
- Manager.DataManager.LoadData: a stored record without a required field raises `KeyError` out of `load_data` part-way through. The model reports failure and leaves the collections as they were.
- Manager.DataManager.constructor: when the load raises, the Python constructor raises as well. The model returns a manager with the initial empty collections.
- Manager.DataManager.ImportRolesFromCsv: the `save_data` call at the end of the role import is not modelled.
- The `save_data` calls after each handler are not modelled; `SaveData` gives the document for any state.
- Sections are addressed by index. The enrollment dialog's alias to its section object is not modelled.
- Creating and editing sections (the section dialog) is not part of this model.
- An exception during an import part-way through the rows (an I/O error) is not modelled; only the header check can fail.

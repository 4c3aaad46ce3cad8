# Florizar core, modelled in Dafny

Florizar is a small CRUD application for a landscaping business. It has contacts (people and
companies), tags on contacts, relations between contacts, job sites ("chantiers") and their photos.
An older generation has a `clients` table. The back end is Express over SQLite (better-sqlite3). The
front end is React. This project models the parts of it that carry decisions:

- the schema-migration runner: current version, pending set, backup, one transaction, rollback and
  restore, rethrow (`migrations.dfy`);
- the table models for contacts, tags, job sites, photos and legacy clients, over an abstract
  SQLite store. Each table is an id-keyed map with an AUTOINCREMENT counter. `WHERE`, `ORDER BY`,
  `LIMIT` and `LIKE` are modelled in `sql.dfy` and `ordering.dfy`. The cascades are in the models
  that delete (`store.dfy`, `*_model.dfy`);
- the decisions the contact, tag and photo routes take around those models: existence guards,
  whitelists, the `/top` limit, the upload filter and the stored file name (`*_routes.dfy`);
- the password-strength classifier and the JWT secret length rule (`security.dfy`);
- the helpers and state updates of the Contacts, Chantiers, Clients, ClientDetail and Dashboard
  pages (`*_page.dfy`).

Code whose effect is a change of state is modelled imperatively:

- `Migrations.Database`, `Store.Database` and `ClientModel.Database` are classes whose methods
  change tables.
- The page classes hold the React state that the handlers write.
- Each such method is proved equal to a pure function of the old state (`AfterCreate`, `Run`, ...).
- The properties are lemmas about those functions.

JavaScript values are `Common.Value` (undefined, null, boolean, integer, string). Objects and rows
are maps from column names to values. `||`, destructuring defaults and better-sqlite3's binding of
`undefined` as NULL are written out (`Common.Or`, `Common.Default`, `Common.Bind`). better-sqlite3
refuses to bind a JavaScript boolean. That error is modelled: a model operation answers `Err`, and
a route answers 500.

## Model

| member | source | states |
|---|---|---|
| Migrations.MaxVersion | backend/src/config/migrations.js:29 | `MAX(version)` over a non-empty table is an upper bound of every recorded version and is itself recorded |
| Migrations.CurrentVersion | backend/src/config/migrations.js:27-34 | the current version is 0 without a table or without rows; otherwise it is the largest recorded version |
| Migrations.Pending | backend/src/config/migrations.js:66 | the pending migrations are exactly the catalog entries above the current version, in catalog order (a subsequence of the catalog) |
| Migrations.NextVersion | backend/src/config/migrations.js:133 | the proposed version is at least 1 and above every catalog version; it is 1, or one more than some catalog version |
| Migrations.ApplyAllSpec | backend/src/config/migrations.js:93-104 | the loop commits exactly when every `up()` succeeds and every record insert meets UNIQUE(version); it then appends the records and the effects in catalog order |
| Migrations.Database.constructor | backend/src/config/migrations.js:15-24 | a database that has no migrations table yet, and no backups |
| Migrations.InitMigrationsTable | backend/src/config/migrations.js:15-24 | `CREATE TABLE IF NOT EXISTS`: the table exists afterwards; the records and data are unchanged |
| Migrations.Transaction | backend/src/config/migrations.js:90-106 | the imperative loop ends in the state `ApplyAll` specifies, or reports the failure `ApplyAll` aborts with; UNIQUE(version) is kept |
| Migrations.RunMigrations | backend/src/config/migrations.js:60-129 | the run changes the files and ends exactly as `Run` specifies |
| Migrations.Rollback | backend/src/config/migrations.js:113-126 | after a failure the database is the backup file of the current version when one exists, and otherwise the state before the transaction |
| Migrations.ApplyAllAbortStays | backend/src/config/migrations.js:93-104 | once one migration fails, the later ones cannot change the outcome: the loop stops at the first failure |
| Migrations.RunUpToDate | backend/src/config/migrations.js:68-71 | with nothing pending, the run creates the table and does nothing else: no backup, no transaction, no record |
| Migrations.RunMigrated | backend/src/config/migrations.js:90-112 | on success, each pending migration ran once, in order, followed by its record. The backup of this version is gone. The new current version is the largest pending version |
| Migrations.RunMigratedAscending | backend/src/config/migrations.js:93-106 | with an ascending catalog, the version after a successful run is the last pending one |
| Migrations.RunTwice | backend/src/config/migrations.js:66-71 | a second run straight after a successful one finds nothing pending and changes nothing |
| Migrations.RunRethrown | backend/src/config/migrations.js:75-128 | on failure, the error is rethrown. A backup is taken only when the file exists and the copy succeeds, and it stays on disk. The database is the backup when one exists, otherwise the rolled-back state |
| Migrations.RunRestoresStaleBackup | backend/src/config/migrations.js:85-87 | when the copy fails but an earlier run left a backup under the same version, a failure restores that older file |
| Migrations.RunKeepsWellFormed | backend/src/config/migrations.js:19 | recorded versions stay unique, in the database and in every backup |
| Migrations.ShippedCatalogFromScratch | backend/src/config/migrations.js:37-57 | from a fresh file, the shipped catalog records exactly (1, 'initial_schema') and leaves no backup. The current version is then 1, and the next proposed version is 2 |
| Sql.Select | backend/src/models/Contact.js:13-32 | a `SELECT ... WHERE ... ORDER BY` answers exactly the matching rows, each once, sorted by the key |
| Sql.SelectLimit | backend/src/models/Contact.js:181 | with `LIMIT n`, at most n matching rows come back, sorted. Fewer than n means none was left out, and a row left out sorts after every row returned |
| Sql.LikeIsContains | backend/src/models/Contact.js:167-169 | `col LIKE '%term%'` with a term without wildcards is a case-insensitive substring test |
| ContactModel.GetTags | backend/src/models/Contact.js:195-203 | exactly the tags linked to the contact, ordered by name |
| ContactModel.GetRelations | backend/src/models/Contact.js:230-239 | exactly the relations from the contact to contacts that exist, joined with the linked contact's names, ordered by type and then by name |
| ContactModel.GetInterlocuteurs | backend/src/models/Contact.js:244-253 | exactly the contacts linked by an 'interlocuteur' relation, ordered by name |
| ContactModel.GetById | backend/src/models/Contact.js:45-58 | nothing for an unknown id; otherwise the row with its tags, relations and interlocuteurs |
| ContactModel.GetAll | backend/src/models/Contact.js:13-40 | exactly the contacts passing the `actif` and `type_personne` filters, ordered by `nom` and then `prenom`, each with its tags and relations |
| ContactModel.Search | backend/src/models/Contact.js:164-190 | at most 50 matching contacts, ordered by name, each with its tags. When fewer than 50 come back, none was left out |
| ContactModel.GetByTag | backend/src/models/Contact.js:277-294 | exactly the contacts that carry the tag and pass the `actif` filter, ordered by name |
| ContactModel.CountQuoted | backend/src/models/Contact.js:310-311 | a count whose value is double-quoted fails to prepare exactly when no column of the table has that name, with "no such column" |
| ContactModel.GetStatsThrows | backend/src/models/Contact.js:299-324 | `getStats` as written throws "no such column" on every database, before anything is counted |
| ContactModel.IntendedStats | backend/src/models/Contact.js:299-324 | as intended, `parTag` holds every tag with its number of contacts, most used first |
| ContactModel.Create | backend/src/models/Contact.js:63-99 | the insert step by step; new tables and answer as `AfterCreate` |
| ContactModel.Update | backend/src/models/Contact.js:104-138 | the update step by step; new tables and answer as `AfterUpdate` |
| ContactModel.Delete | backend/src/models/Contact.js:143-146 | the delete step by step, cascades included; as `AfterDelete` |
| ContactModel.ToggleActif | backend/src/models/Contact.js:151-159 | as `AfterToggle` |
| ContactModel.AddTag | backend/src/models/Contact.js:208-214 | as `AfterAddTag` (INSERT OR IGNORE) |
| ContactModel.RemoveTag | backend/src/models/Contact.js:219-225 | as `AfterRemoveTag` |
| ContactModel.AddRelation | backend/src/models/Contact.js:258-264 | as `AfterAddRelation` (INSERT OR REPLACE) |
| ContactModel.RemoveRelation | backend/src/models/Contact.js:269-272 | as `AfterRemoveRelation` |
| ContactModel.CreateKeepsWellFormed | backend/src/models/Contact.js:63-99 | an insert keeps ids positive and below the counter, tag names unique and relation triples unique |
| ContactModel.DeleteKeepsWellFormed | backend/src/models/Contact.js:143-146 | a delete with its cascades keeps the store well formed |
| ContactModel.AddRelationKeepsWellFormed | backend/src/models/Contact.js:258-264 | INSERT OR REPLACE keeps every (contact, linked contact, type) triple unique |
| ContactModel.NewRowDefaults | backend/src/models/Contact.js:63-99 | `create` stores the 16 columns. A given value is kept; an absent `type_personne` becomes 'physique', `pays` 'France' and `actif` 1; any other absent value becomes NULL |
| ContactModel.UpdatedRowNoDefaults | backend/src/models/Contact.js:104-138 | `update` has no defaults: each of the 16 columns is the given value, or NULL when absent |
| ContactModel.CreateSpec | backend/src/models/Contact.js:63-99 | `create` succeeds exactly when no field is a boolean. It answers a rowid above every existing one and adds that row alone. A failure changes nothing |
| ContactModel.UpdateSpec | backend/src/models/Contact.js:104-138 | `update` rewrites row `id` alone and answers 1, or 0 and no change for a missing id. A boolean field fails and changes nothing |
| ContactModel.ToggleSpec | backend/src/models/Contact.js:151-159 | 1 becomes 0 and anything else becomes 1, in that row's `actif` only; a missing id changes nothing |
| ContactModel.ToggleTwice | backend/src/models/Contact.js:151-159 | toggling a 0/1 flag twice restores the table |
| ContactModel.DeleteCascades | backend/src/models/Contact.js:143-146 | the contact goes with its tag links, every relation from or to it, its job sites and their photos; nothing else is removed |
| ContactModel.DeleteMissing | backend/src/models/Contact.js:143-146 | deleting an unknown id changes nothing and answers 0 |
| ContactModel.AddTagIdempotent | backend/src/models/Contact.js:208-214 | adding a tag link adds that pair; adding it again changes nothing |
| ContactModel.RemoveTagSpec | backend/src/models/Contact.js:219-225 | exactly that (contact, tag) pair goes, and `addTag` restores it |
| ContactModel.AddRelationReplaces | backend/src/models/Contact.js:258-264 | afterwards one relation holds the triple: the new one, with a fresh id and the new `fonction` and `notes` (NULL by default). Every relation that did not clash keeps its id |
| ContactModel.AddRelationNoDuplicate | backend/src/models/Contact.js:258-264 | re-adding an existing triple leaves the number of relations unchanged |
| ContactModel.RemoveRelationById | backend/src/models/Contact.js:269-272 | the relation with that id goes, whichever contacts it joins, and nothing else changes |
| ContactModel.CountsPartition | backend/src/models/Contact.js:306-311 | two distinct values never count more than the total. When every row holds one of the two, the two counts add up to the total |
| ContactModel.StatsPartition | backend/src/models/Contact.js:299-311 | for the intended statistics, actifs + inactifs ≤ total, with equality when every `actif` is 0 or 1; the same holds for the two kinds |
| ContactModel.InterlocuteurColumns | backend/src/models/Contact.js:244-253 | in `cr.*, c.*` the contact's columns win: a row's `id` is the linked contact's id, not the relation's |
| ContactRoutes.ParseFilters | backend/src/routes/contacts.js:133-139 | `actif` is present exactly when the query has one, and is true exactly for 'true' or '1'; `type_personne` is passed only when non-empty |
| ContactRoutes.FiltersSelect | backend/src/routes/contacts.js:163-171 | with filters built that way, a contact is listed exactly when its `actif` matches the flag (1 or 0) and its kind matches; an absent filter selects everything |
| ContactRoutes.HandlePost | backend/src/routes/contacts.js:216-226 | 400 for an invalid body; otherwise create and answer 201 with the stored contact, or 500 |
| ContactRoutes.HandlePut | backend/src/routes/contacts.js:229-246 | 404 without a change for a missing contact; otherwise update and answer the stored contact |
| ContactRoutes.HandleToggle | backend/src/routes/contacts.js:249-266 | 404 for a missing contact; otherwise toggle and answer the contact |
| ContactRoutes.HandleDelete | backend/src/routes/contacts.js:269-285 | 404 for a missing contact; otherwise delete with cascades |
| ContactRoutes.HandlePostRelation | backend/src/routes/contacts.js:326-349 | a linked id that `isInt({ min: 1 })` accepts, as a number or as text, and one of the five trimmed types are required (400 otherwise); then the relation to that id is added and 201 answered |
| ContactRoutes.HandleDeleteRelation | backend/src/routes/contacts.js:352-366 | removes the relation by its own id and answers the contact of the URL |
| ContactRoutes.MissingIsNotFound | backend/src/routes/contacts.js:234-277 | PUT, toggle and DELETE on a contact that does not exist answer 404 and change nothing |
| ContactRoutes.ExistingIsChanged | backend/src/routes/contacts.js:234-280 | on an existing contact they answer 200. PUT answers the rewritten row, toggle gives the toggled table, and DELETE removes the contact |
| ContactRoutes.PostAnswersStored | backend/src/routes/contacts.js:216-221 | POST answers 201 with the row `create` stored, under an id that was not in use |
| ContactRoutes.RelationTypeWhitelist | backend/src/routes/contacts.js:326-337 | a relation request is refused exactly when an id is invalid or the trimmed type is not one of the five; a refusal changes nothing |
| ContactRoutes.PositiveIdAccepts | backend/src/routes/contacts.js:328 | `isInt({ min: 1 })` accepts a positive id as a number, as its decimal text, with a `+` sign and with a leading zero, each read as that number |
| ContactRoutes.PositiveIdRefuses | backend/src/routes/contacts.js:328 | it refuses 0 and negative ids, as numbers and as text, and any text with a character other than a leading sign and digits |
| ContactRoutes.FormIdLikeJson | backend/src/routes/contacts.js:326-342 | a form post whose `contact_lie_id` is the id's text has the same outcome and effect as the JSON post of that number |
| ContactRoutes.StatsAlways500 | backend/src/routes/contacts.js:150-157 | `GET /stats` answers 500 on every database, because `getStats` always throws |
| ContactRoutes.IntendedStatsAnswer | backend/src/routes/contacts.js:150-157 | with the intended statistics, `GET /stats` answers 200 with them, and each pair of counts stays within the total |
| ContactRoutes.DeleteRelationAnyOwner | backend/src/routes/contacts.js:352-358 | a relation between two other contacts is still deleted through any contact's URL |
| TagModel.GetContactCount | backend/src/models/Tag.js:87-94 | the count is 0 exactly when no contact carries the tag, and never exceeds the number of links |
| TagModel.UsageBounds | backend/src/models/Tag.js:87-94 | `COUNT(*)` of a tag's links is 0 exactly when it has none, and at most the number of links |
| TagModel.GetById | backend/src/models/Tag.js:25-35 | nothing for an unknown id; otherwise the tag with its contact count, 0 exactly when no contact carries it |
| TagModel.GetAll | backend/src/models/Tag.js:11-20 | every tag, each once with its count, ordered by name |
| TagModel.GetByNom | backend/src/models/Tag.js:40-43 | the tag with exactly that name if any. A NULL name finds nothing, and a boolean name cannot be bound |
| TagModel.Search | backend/src/models/Tag.js:99-107 | exactly the tags whose name or description matches, ordered by name |
| TagModel.SearchIsContains | backend/src/models/Tag.js:99-107 | for a term without wildcards, the match is a case-insensitive substring test on the name or the description; a NULL description matches nothing |
| TagModel.GetAllWithCount | backend/src/models/Tag.js:112-121 | every tag with its number of links, ordered by name |
| TagModel.GetTopUsed | backend/src/models/Tag.js:126-136 | at most `limit` tags (10 by default), each with its count, most used first |
| TagModel.Create | backend/src/models/Tag.js:48-58 | as `AfterCreate` |
| TagModel.Update | backend/src/models/Tag.js:63-73 | as `AfterUpdate` |
| TagModel.Delete | backend/src/models/Tag.js:79-82 | as `AfterDelete` |
| TagModel.CreateSpec | backend/src/models/Tag.js:48-58 | the colour defaults to '#6b7280' and the description to ''. A taken name violates UNIQUE and changes nothing. Otherwise the tag gets a fresh id above every other |
| TagModel.UpdateSpec | backend/src/models/Tag.js:63-73 | only that tag is overwritten. Another tag's name fails with UNIQUE and changes nothing. Names stay unique |
| TagModel.DeleteSpec | backend/src/models/Tag.js:76-82 | the tag goes with every link to it, so its count is then 0; no other table changes |
| TagModel.AddTagCounts | backend/src/models/Contact.js:208-214 | a new link raises that tag's count by one and no other count |
| TagModel.RemoveTagCounts | backend/src/models/Contact.js:219-225 | removing a link lowers that tag's count by one and no other count |
| TagModel.AllAgree | backend/src/models/Tag.js:11-20 | `getAll` and `getAllWithCount` list the same tags with the same counts |
| TagModel.TopUsedAreMostUsed | backend/src/models/Tag.js:126-136 | a tag left out is used no more than every tag returned; with fewer rows than the limit, or a negative limit, no tag is left out |
| TagRoutes.DigitRun | backend/src/routes/tags.js:62 | the leading run `parseInt` reads: digits only, stopping at the first non-digit |
| TagRoutes.TopLimit | backend/src/routes/tags.js:62 | `parseInt(limit) \|\| 10` is never 0 |
| TagRoutes.ParseIntText | backend/src/routes/tags.js:62 | `parseInt` reads back the decimal text of every integer |
| TagRoutes.TopLimitFallback | backend/src/routes/tags.js:62 | the limit is 10 without a parameter, for an empty or non-numeric text, and for "0" |
| TagRoutes.TopLimitNumber | backend/src/routes/tags.js:62 | any other integer is taken as it is, a negative one included |
| TagRoutes.NegativeTopListsAll | backend/src/routes/tags.js:60-69 | `/top/-1` lists every tag: a negative LIMIT does not limit |
| TagRoutes.HandlePost | backend/src/routes/tags.js:89-102 | 400 for an invalid body or a taken name, 500 for another failure, otherwise 201 with the stored tag |
| TagRoutes.HandlePut | backend/src/routes/tags.js:105-125 | 404 for a missing tag, 400 for a taken name, otherwise the updated tag |
| TagRoutes.HandleDelete | backend/src/routes/tags.js:128-153 | 404 for a missing tag, 400 for a tag in use, otherwise delete |
| TagRoutes.DeleteGuards | backend/src/routes/tags.js:133-148 | a missing tag gives 404 and a tag some contact carries gives 400, both without a change; an unused tag is deleted |
| TagRoutes.GetOneFound | backend/src/routes/tags.js:72-86 | `GET /:id` answers 404 exactly when no tag has the id, and otherwise 200 with that tag and its number of contacts |
| TagRoutes.PutMissing | backend/src/routes/tags.js:110-113 | PUT on a missing tag answers 404 without an update |
| TagRoutes.DuplicateNameIs400 | backend/src/routes/tags.js:95-98 | when another tag already has the name, create and update answer 400, not 500, and change nothing |
| TagRoutes.DefaultColourValid | backend/src/models/Tag.js:49 | the default colour has the `#RRGGBB` form the route demands |
| TagRoutes.PostedColourValid | backend/src/routes/tags.js:22-26 | every tag created through POST has a `#RRGGBB` colour |
| ChantierModel.GetAll | backend/src/models/Chantier.js:8-21 | every job site, each once, joined with its contact's names, latest start first |
| ChantierModel.GetById | backend/src/models/Chantier.js:23-38 | nothing for an unknown id; otherwise the row joined with the contact's details |
| ChantierModel.GetByContactId | backend/src/models/Chantier.js:44-52 | exactly the contact's job sites, latest start first (`getByClientId` is the same call) |
| ChantierModel.GetPhotos | backend/src/models/Chantier.js:143-146 | exactly the job site's photos, newest first |
| ChantierModel.Create | backend/src/models/Chantier.js:54-95 | as `AfterCreate` |
| ChantierModel.Update | backend/src/models/Chantier.js:97-136 | as `AfterUpdate` |
| ChantierModel.Delete | backend/src/models/Chantier.js:138-141 | as `AfterDelete` |
| ChantierModel.CreateRow | backend/src/models/Chantier.js:54-95 | `contact_id` falls back to `client_id` and `nom` to `titre`. A falsy `date_fin` is stored as NULL. `statut` defaults to 'planifie' and `priorite` to 'moyenne'. Every other column is kept as given |
| ChantierModel.UpdateRow | backend/src/models/Chantier.js:97-136 | the same fallbacks without defaults: a missing `statut` or `priorite` becomes NULL |
| ChantierModel.CreateSpec | backend/src/models/Chantier.js:54-95 | a fresh id above every other; that row alone is added |
| ChantierModel.UpdateSpec | backend/src/models/Chantier.js:97-136 | row `id` alone is rewritten; a missing id changes nothing |
| ChantierModel.DeleteCascades | backend/src/config/database.js:70 | the job site goes with its photos; every other job site and photo stays |
| ChantierModel.OrphanListed | backend/src/models/Chantier.js:8-21 | a job site whose contact is gone is still listed, with NULL contact columns (LEFT JOIN) |
| ChantierModel.ContactDeleteEmpties | backend/src/models/Chantier.js:44-47 | once a contact is deleted, no job site is listed under it |
| PhotoModel.GetById | backend/src/models/Photo.js:13-16 | nothing for an unknown id, otherwise that row |
| PhotoModel.GetByChantier | backend/src/models/Photo.js:18-21 | exactly the photos of that job site, newest first |
| PhotoModel.Create | backend/src/models/Photo.js:4-11 | as `AfterCreate` |
| PhotoModel.Delete | backend/src/models/Photo.js:23-26 | as `AfterDelete` |
| PhotoModel.UpdateDescription | backend/src/models/Photo.js:28-31 | as `AfterUpdateDescription` |
| PhotoModel.CreateThenGet | backend/src/models/Photo.js:4-11 | the new photo reads back as given, with description '' when none was passed. It gets a fresh id, and no other photo changes. Only an existing job site can take one |
| PhotoModel.CreateListed | backend/src/models/Photo.js:18-21 | a new photo is among its job site's photos |
| PhotoModel.DeleteThenGet | backend/src/models/Photo.js:23-26 | afterwards that photo is gone and every other is as it was |
| PhotoModel.UpdateDescriptionThenGet | backend/src/models/Photo.js:28-31 | only that photo's description changes (`undefined` as NULL); a boolean cannot be bound |
| PhotoRoutes.LastIndexOf | backend/src/routes/photos.js:25 | the index found holds the character, or -1 |
| PhotoRoutes.LastIndexOfIsLast | backend/src/routes/photos.js:25 | no later position holds the character |
| PhotoRoutes.BaseName | backend/src/routes/photos.js:25 | the last path segment holds no slash |
| PhotoRoutes.ExtnameShape | backend/src/routes/photos.js:25 | `path.extname` is empty or one dot followed by non-dots, without a slash |
| PhotoRoutes.StoredNameKeepsExtension | backend/src/routes/photos.js:23-26 | the stored name `suffix + extname(original)` has the original file's extension |
| PhotoRoutes.AnyRefusedIff | backend/src/routes/photos.js:29-43 | a batch is refused exactly when one of its files is refused or too large |
| PhotoRoutes.MismatchAccepted | backend/src/routes/photos.js:33-37 | extension and mimetype are checked apart: a `.jpg` sent as `image/png` passes |
| PhotoRoutes.NoImageLetters | backend/src/routes/photos.js:33 | a text without j, g or w names no image type |
| PhotoRoutes.Refused | backend/src/routes/photos.js:32-42 | a `text/plain` file, or a name without an extension, is refused |
| PhotoRoutes.HandleUploadOne | backend/src/routes/photos.js:49-67 | a refused file gives 500 and 400 is answered without a file; otherwise one row with the given description or '', answered with 201 |
| PhotoRoutes.HandleUploadMany | backend/src/routes/photos.js:70-90 | a refused or oversize batch gives 500; no files gives 400; otherwise one row per file, in a loop, answered with 201 |
| PhotoRoutes.HandleRemove | backend/src/routes/photos.js:103-121 | 404 for an unknown photo; otherwise the row is deleted |
| PhotoRoutes.NoFileIs400 | backend/src/routes/photos.js:51-53 | without a file, or with an empty list, the answer is 400 and nothing changes |
| PhotoRoutes.RefusedUploadWritesNothing | backend/src/routes/photos.js:29-43 | more than ten files, or one refused, fail the whole request with no row written |
| PhotoRoutes.CreateFromRows | backend/src/routes/photos.js:76-84 | from the i-th file on, each file gets the next id, with its stored name and the description '' |
| PhotoRoutes.CreateAllRows | backend/src/routes/photos.js:76-84 | on an existing job site, one row per file, in the order sent, under consecutive ids |
| PhotoRoutes.CreateAllFresh | backend/src/routes/photos.js:76-84 | those ids are fresh: no earlier photo is overwritten |
| PhotoRoutes.MissingSiteWritesNothing | backend/src/routes/photos.js:76-88 | without the job site the first insert fails the foreign key and nothing is written |
| PhotoRoutes.RemoveGuard | backend/src/routes/photos.js:105-117 | an unknown photo answers 404 and changes nothing; a known one is removed |
| PhotoRoutes.DescribeMissing | backend/src/routes/photos.js:124-132 | PUT on an unknown photo answers 200 with nothing and changes nothing |
| ClientModel.GetAll | backend/src/models/Client.js:4-7 | every client, each once, most recently created first |
| ClientModel.GetById | backend/src/models/Client.js:9-12 | nothing for an unknown id, otherwise that client |
| ClientModel.SearchByName | backend/src/models/Client.js:40-48 | exactly the clients whose name, first name or company matches, most recently created first |
| ClientModel.Database.Create | backend/src/models/Client.js:14-22 | as `AfterCreate` |
| ClientModel.Database.Update | backend/src/models/Client.js:24-33 | as `AfterUpdate` |
| ClientModel.Database.Delete | backend/src/models/Client.js:35-38 | as `AfterDelete` |
| ClientModel.CreateSpec | backend/src/models/Client.js:14-22 | the nine given fields are stored (missing ones as NULL) under a fresh id. A client without a name fails NOT NULL and changes nothing |
| ClientModel.UpdateSpec | backend/src/models/Client.js:24-33 | the nine fields of that client alone are overwritten, keeping its creation time; a missing id changes nothing |
| ClientModel.DeleteCascades | backend/src/config/database.js:57-70 | the client goes with its job sites and their photos, and nothing else |
| ClientModel.SearchIsContains | backend/src/models/Client.js:40-48 | for a term without wildcards, a case-insensitive substring test on the three name columns |
| ClientModel.EmptySearchFindsNamed | backend/src/models/Client.js:40-48 | the empty term finds every client with a name |
| Security.SpecialsAreTheClass | backend/src/middleware/security.js:160 | the special class is exactly its twenty characters |
| Security.HasIff | backend/src/middleware/security.js:157-160 | an unanchored class test holds exactly when some character is in the class |
| Security.Messages | backend/src/middleware/security.js:164-178 | one message per broken rule, in the same order |
| Security.ValidatePasswordStrength | backend/src/middleware/security.js:155-184 | the errors are the messages of the broken rules in reporting order; `isValid` holds exactly when there are none |
| Security.BrokenAmongMembers | backend/src/middleware/security.js:164-178 | a rule is reported exactly when it is checked and broken, in the order checked |
| Security.NoneBroken | backend/src/middleware/security.js:180-183 | nothing is reported exactly when every rule holds |
| Security.ValidIff | backend/src/middleware/security.js:155-184 | a password is valid exactly when it has at least 8 characters and all four classes |
| Security.ErrorsAreBrokenRules | backend/src/middleware/security.js:164-178 | each message appears exactly when its rule is broken, in the fixed order, so there are at most five |
| Security.MessageInjective | backend/src/middleware/security.js:164-178 | different rules have different messages |
| Security.Examples | backend/src/middleware/security.js:155-184 | `Abcdef1!` passes every rule; the empty password breaks all five |
| Security.AllBroken | backend/src/middleware/security.js:164-178 | when every rule is broken, all are reported |
| Security.CheckSecret | backend/src/middleware/security.js:189-208 | the server may start exactly when a secret of length ≥ 32 is set. An empty or missing secret is refused as missing. A shorter one is refused with its length |
| ContactsPage.DisplayNameOfCompany | frontend/src/pages/Contacts.jsx:167-170 | a company shows its legal name when set, else its `nom` |
| ContactsPage.DisplayNameOfPerson | frontend/src/pages/Contacts.jsx:171 | a person shows `nom prenom` |
| ContactsPage.DisplayNameWithoutPrenom | frontend/src/pages/Contacts.jsx:171 | without a first name, the trailing space is trimmed away and the display name is `nom` |
| ContactsPage.SubtitleCases | frontend/src/pages/Contacts.jsx:174-179 | only companies are 'Entreprise', with their legal form in brackets when set; everyone else is 'Particulier' |
| ContactsPage.FilteredIsSubsequence | frontend/src/pages/Contacts.jsx:182-204 | the list keeps the contacts' order; a contact is listed exactly when it matches the search, type and state |
| ContactsPage.ActifPartition | frontend/src/pages/Contacts.jsx:200-201 | the 'actif' and 'inactif' lists split the 'all' list: disjoint, and together as long |
| ContactsPage.SearchIgnoresCase | frontend/src/pages/Contacts.jsx:184 | the term's case does not change the list |
| ContactsPage.EmptySearchListsAll | frontend/src/pages/Contacts.jsx:182-204 | with an empty search and no filter, every contact with a `nom` is listed |
| ContactsPage.DataToSendSpec | frontend/src/pages/Contacts.jsx:57-67 | `actif` is sent as 1 exactly when the box is ticked, else 0. For a person the four company fields are sent as null. Every other field passes unchanged |
| ContactsPage.EditThenSend | frontend/src/pages/Contacts.jsx:90-111 | saving an edited contact unchanged sends its state as 1 or 0, and keeps a company's fields |
| ContactsPage.EditFormFilled | frontend/src/pages/Contacts.jsx:92-109 | the edit form has the initial form's fields; each text field is set or '' |
| ContactsPage.Page.constructor | frontend/src/pages/Contacts.jsx:9-33 | the initial form, nothing being edited, the modal closed, no error |
| ContactsPage.Page.HandleEdit | frontend/src/pages/Contacts.jsx:90-111 | the form is filled from the contact, which becomes the one edited; the modal opens |
| ContactsPage.Page.HandleChange | frontend/src/pages/Contacts.jsx:159-165 | only the named field changes, to `checked` for a checkbox and to `value` otherwise |
| ContactsPage.Page.ResetForm | frontend/src/pages/Contacts.jsx:135-157 | the initial form, nothing being edited, the modal closed, no error |
| ChantiersPage.BadgeCases | frontend/src/pages/Chantiers.jsx:154-162 | a known status gets its own class; `en_cours` and every unknown value get 'badge-info' |
| ChantiersPage.LabelCases | frontend/src/pages/Chantiers.jsx:164-172 | the four statuses get four different labels; any other value is shown as it is |
| ChantiersPage.BeforeT | frontend/src/pages/Chantiers.jsx:66-67 | `split('T')[0]` is the prefix before the first 'T', or all the text without one |
| ChantiersPage.DatePartCases | frontend/src/pages/Chantiers.jsx:66-67 | a timestamp loses its time; a plain date is kept |
| ChantiersPage.EditFormSpec | frontend/src/pages/Chantiers.jsx:61-73 | the edit form has the initial form's fields. The dates keep only their day, and `statut` defaults to 'en_cours'. Other fields are copied when set, else '' |
| ChantiersPage.WithoutPhotoSpec | frontend/src/pages/Chantiers.jsx:147 | the deleted photo leaves the list; every other photo stays, in order |
| ChantiersPage.WithoutPhotoCount | frontend/src/pages/Chantiers.jsx:147 | the list shrinks by exactly the number of photos with that id |
| ChantiersPage.Page.constructor | frontend/src/pages/Chantiers.jsx:9-24 | the initial form, nothing being edited, no photos |
| ChantiersPage.Page.HandleEdit | frontend/src/pages/Chantiers.jsx:61-73 | the form is filled from the job site, which becomes the one edited; the modal opens |
| ChantiersPage.Page.HandleChange | frontend/src/pages/Chantiers.jsx:101-106 | only the named field changes |
| ChantiersPage.Page.ResetForm | frontend/src/pages/Chantiers.jsx:87-99 | the initial form, nothing being edited, the modal closed |
| ChantiersPage.Page.HandleDeletePhoto | frontend/src/pages/Chantiers.jsx:143-152 | after a confirmed, successful delete the photo leaves the list; otherwise the list is kept |
| ClientsPage.EditFormSpec | frontend/src/pages/Clients.jsx:55-69 | exactly the nine fields; a set field is copied, a null or missing one becomes ''. An empty client gives the reset form |
| ClientsPage.FilteredSpec | frontend/src/pages/Clients.jsx:106-110 | the list keeps the clients' order; a client is listed exactly when the lowered term occurs in one of the three lowered fields |
| ClientsPage.EmptySearch | frontend/src/pages/Clients.jsx:106-110 | the empty term keeps exactly the clients with one of the three fields set to a text |
| ClientsPage.NullFieldsNeverListed | frontend/src/pages/Clients.jsx:106-110 | a client whose three fields are all null is never listed |
| ClientsPage.Page.constructor | frontend/src/pages/Clients.jsx:9-22 | the empty form, nothing being edited, the modal closed |
| ClientsPage.Page.HandleEdit | frontend/src/pages/Clients.jsx:55-69 | the form is filled from the client, which becomes the one edited; the modal opens |
| ClientsPage.Page.ResetForm | frontend/src/pages/Clients.jsx:83-97 | the empty form, nothing being edited, the modal closed |
| ClientsPage.Page.HandleChange | frontend/src/pages/Clients.jsx:99-104 | only the named field changes |
| ClientDetailPage.StatusColumn | frontend/src/pages/ClientDetail.jsx:87-105 | one (label, badge) per job site. A known status gets a label other than its raw value; an unknown one is shown as it is, with 'badge-info' |
| ClientDetailPage.Page.constructor | frontend/src/pages/ClientDetail.jsx:9-23 | no client, no job sites, the empty form |
| ClientDetailPage.Page.LoadClientData | frontend/src/pages/ClientDetail.jsx:29-54 | on success: the client, its job sites and the prefilled form. On failure: back to the list, with everything else kept |
| ClientDetailPage.Page.HandleChange | frontend/src/pages/ClientDetail.jsx:68-73 | only the named field changes |
| ClientDetailPage.PrefillSpec | frontend/src/pages/ClientDetail.jsx:37-47 | the form holds the nine fields: a set field as the client has it, a null or missing one as '' |
| DashboardPage.CountersBounded | frontend/src/pages/Dashboard.jsx:31-33 | in progress + finished ≤ total |
| DashboardPage.CountersCoverAll | frontend/src/pages/Dashboard.jsx:31-33 | the two counters add up to the total exactly when every job site is in progress or finished |
| DashboardPage.RecentSpec | frontend/src/pages/Dashboard.jsx:37 | the recent list is the first min(n, 5) job sites, in the order received |
| DashboardPage.RecentBadgeDiffers | frontend/src/pages/Dashboard.jsx:119-120 | planned and cancelled job sites show 'Terminé' in the recent list, unlike the job-site page; the two agree on `en_cours` and `termine` |
| DashboardPage.Page.constructor | frontend/src/pages/Dashboard.jsx:7-14 | zero counters, no recent job sites, loading |
| DashboardPage.Page.LoadDashboardData | frontend/src/pages/Dashboard.jsx:20-43 | on success, the counters of the two lists and the first five job sites; on failure, both are kept. Loading ends either way |

## Left out

- SQLite itself.
  - Tables are maps with an AUTOINCREMENT counter.
  - Type affinity, floating-point values and date parsing are not modelled. Integers are unbounded.
  - In ClientModel, `CURRENT_TIMESTAMP` is the parameter `now`. The photo insert takes its `uploaded_at` as a parameter. The contact and job-site models keep no `created_at` or `updated_at` column, so their rows lack the two columns that `SELECT *` returns.
  - The order of rows that tie under `ORDER BY` is unspecified in SQLite. The contracts state membership and sortedness, not a tie order.
- Foreign-key checks on contact and job-site inserts are not modelled. The photo insert's check on its job site is modelled.
- The schema that creates the contacts generation of tables is not part of this model. The cascades on contact delete follow the data model the code relies on: tag links, relations from and to the contact, and job sites with their photos.
- The table schema in backend/src/config/database.js (`clients`, `chantiers.client_id`, `titre`) disagrees with what the models query (`contacts`, `contact_id`, `nom`). Each file is modelled against its own view. `ClientModel` has its own tables.
- The migration catalog is the one in the code: a single no-op version 1. No clients-to-contacts transform exists in the code, so none is modelled. Other migrations are parameters.
- File-system calls are not modelled. `existsSync`, `copyFileSync` and `unlinkSync` in the migration runner become a `dbFileExists` flag, a `backupCopySucceeds` parameter and a map of backups by version.
- Console output is not modelled, in the migration runner and in the routes.
- In `createMigration`, only the version is modelled. The printed template is not.
- ContactModel.Update, ContactModel.ToggleActif, ChantierModel.Create, ChantierModel.Update: the `created_at` and `updated_at` columns are not modelled. The source sets `updated_at = CURRENT_TIMESTAMP` on contact update and toggle and on job-site update, and the tables in backend/src/config/database.js give `created_at` a `CURRENT_TIMESTAMP` default. The contracts therefore state every column except these two.
- ContactModel.GetStats, ContactModel.CountQuoted: a double-quoted token is always read as a column name, as better-sqlite3 builds SQLite with `SQLITE_DQS=0`. The two kind counts therefore fail to prepare and `getStats` throws; the counts the source evidently means are `ContactModel.IntendedStats` (see "## Findings"). Only the first failing statement is modelled, not the SQLite error text.
- The express-validator chains in the contact and tag routes are a parameter `valid`. The exceptions are the `type_personne`, `type_relation` and colour rules and the positive-integer id checks. Sanitizers such as `escape` and `normalizeEmail` are not modelled.
- ContactRoutes.HandlePostRelation, ContactRoutes.PositiveIdAccepts: the body's `contact_lie_id` is checked as a number or as text. The text's value is assumed to reach the relations table as that integer, by the INTEGER affinity of a column whose schema is not part of this model. A number of `1e21` or more, which `String` writes in exponent form and `isInt` refuses, is accepted here.
- A non-numeric path parameter of the photo routes is not modelled. Ids are integers.
- Authentication middleware is not modelled.
- The multer upload is not modelled beyond its decisions.
  - Storage on disk and the directory creation are left out.
  - The `Date.now()`/`Math.random()` name suffix is a parameter.
  - The 10 MB limit is a per-file flag.
  - Multer's errors reach the global handler as a 500.
  - The deletion of the file on disk is left out.
- Only the rules of `security.js` named in the Model table are modelled. `validateJWTSecret`'s `process.exit` and console output are left out; the rule is a function answering why the server must stop. Helmet, rate limiting, sanitizing middleware and `securityLogger` are left out.
- The React pages are modelled as state updates that take effect immediately.
  - JSX rendering is left out.
  - `useEffect` and `Promise.all` are left out. A successful response is a parameter, and a failed one is `None`.
  - `window.confirm` and the outcome of the API call are parameters.
- ContactsPage.FilteredIsSubsequence, ClientsPage.FilteredSpec, Sql.LikeIsContains, TagModel.SearchIsContains and ClientModel.SearchIsContains lower-case ASCII letters only. The source's `toLowerCase` and SQLite's `LIKE` are not modelled beyond ASCII, and string lengths are counted in characters, not UTF-16 units.
- ContactsPage.FilteredIsSubsequence: `?.toLowerCase()` on a search field that is a number or a boolean throws in the source, unless an earlier field already matched. Here such a field does not match.
- ClientsPage.FilteredSpec: `toLowerCase` on a field that is a number or a boolean throws in the source. Here such a field does not match.
- ChantiersPage.LabelCases, ChantiersPage.BadgeCases: statuses named like `Object.prototype` properties (`toString`, ...) are treated as unknown. The source would look them up on the prototype, in `getStatutLabel` and in `getStatutBadge`.
- ChantierModel.GetByContactId also stands for `getByClientId`, which only calls it.
- `Contact.getById` after a create is modelled as reading the stored row. The route's log line is not modelled.

## Findings

| source | as written | input that shows it | evidently intended | confidence | as-written member | corrected member |
|---|---|---|---|---|---|---|
| backend/src/models/Contact.js:310-311 | `WHERE type_personne = "physique"` and `= "morale"`: under better-sqlite3's `SQLITE_DQS=0` a double-quoted token is a column name, and the contacts table has no column `physique`, so preparing the statement throws and `GET /contacts/stats` answers 500 | any database, the empty one included | the string literals `'physique'` and `'morale'`, counting contacts of each kind | not executed | ContactModel.GetStatsThrows | ContactModel.StatsPartition |

/**
  backend/src/models/Contact.js: contacts (individuals and companies), the tags
  attached to them and the typed relations between them.

  Each statement that changes the database is a method on `Store.Database` whose
  new state is given by a pure function `After...` of the old `Tables`; the
  queries are functions of the tables. What the model promises is stated as
  lemmas about those functions.
 */
module ContactModel {
  import opened Common
  import opened Ordering
  import opened Sql
  import opened Store

  /** The sixteen columns `create` and `update` bind. */
  const Columns: set<string> := {
    "type_personne", "nom", "prenom", "raison_sociale", "email", "telephone",
    "telephone_secondaire", "adresse", "ville", "code_postal", "pays", "siret",
    "tva_intracommunautaire", "forme_juridique", "actif", "notes"}

  /** The four columns only a company uses. */
  const CompanyColumns: set<string> := {"raison_sociale", "siret", "tva_intracommunautaire", "forme_juridique"}

  /** The destructuring defaults of `create`. */
  function CreateDefault(column: string): Value
  {
    if column == "type_personne" then Str("physique")
    else if column == "pays" then Str("France")
    else if column == "actif" then Num(1)
    else Undefined
  }

  /** The row `create` inserts. */
  function NewRow(data: Obj): Obj
  {
    map c | c in Columns :: Bind(Default(Get(data, c), CreateDefault(c)))
  }

  /** The columns `update` writes: every listed field, with no default. */
  function UpdatedRow(data: Obj): Obj
  {
    map c | c in Columns :: Bind(Get(data, c))
  }

  predicate AllBindable(row: Obj)
  {
    forall c :: c in row ==> Bindable(row[c])
  }

  // ------------------------------------------------------------- changes

  /** `create`: insert the row, answer its new rowid. */
  function AfterCreate(t: Tables, data: Obj): (Tables, Result<int>)
  {
    var row := NewRow(data);
    if !AllBindable(row) then (t, Err(BindError))
    else
      var id := t.last.contacts + 1;
      (t.(contacts := t.contacts[id := row], last := t.last.(contacts := id)), Ok(id))
  }

  /** `update`: overwrite the sixteen columns of row `id`; answers the number of rows changed. */
  function AfterUpdate(t: Tables, id: int, data: Obj): (Tables, Result<nat>)
  {
    var row := UpdatedRow(data);
    if !AllBindable(row) then (t, Err(BindError))
    else if id in t.contacts then (t.(contacts := t.contacts[id := row]), Ok(1))
    else (t, Ok(0))
  }

  /** The job sites of contact `id`, which go with it (ON DELETE CASCADE). */
  function ChantiersOf(t: Tables, id: int): set<int>
  {
    set c | c in t.chantiers && Get(t.chantiers[c], "contact_id") == Num(id)
  }

  /** `delete`: the contact, and by cascade its tag links, every relation from or to it,
      its job sites and their photos. */
  function AfterDelete(t: Tables, id: int): (Tables, nat)
  {
    if id !in t.contacts then (t, 0)
    else
      var gone := ChantiersOf(t, id);
      (t.(contacts := t.contacts - {id},
          contactTags := (set p | p in t.contactTags && p.0 != id),
          relations := (map r | r in t.relations && t.relations[r].contactId != id && t.relations[r].contactLieId != id :: t.relations[r]),
          chantiers := t.chantiers - gone,
          photos := (map p | p in t.photos && t.photos[p].chantierId !in gone :: t.photos[p])),
       1)
  }

  /** `CASE WHEN actif = 1 THEN 0 ELSE 1 END` */
  function Toggled(actif: Value): Value
  {
    if actif == Num(1) then Num(0) else Num(1)
  }

  /** `toggleActif` */
  function AfterToggle(t: Tables, id: int): (Tables, nat)
  {
    if id in t.contacts then
      (t.(contacts := t.contacts[id := t.contacts[id]["actif" := Toggled(Get(t.contacts[id], "actif"))]]), 1)
    else (t, 0)
  }

  /** `addTag`: INSERT OR IGNORE of the (contact, tag) pair. */
  function AfterAddTag(t: Tables, contactId: int, tagId: int): (Tables, nat)
  {
    if (contactId, tagId) in t.contactTags then (t, 0)
    else (t.(contactTags := t.contactTags + {(contactId, tagId)}), 1)
  }

  /** `removeTag` */
  function AfterRemoveTag(t: Tables, contactId: int, tagId: int): (Tables, nat)
  {
    if (contactId, tagId) in t.contactTags then (t.(contactTags := t.contactTags - {(contactId, tagId)}), 1)
    else (t, 0)
  }

  /** The relation `addRelation` binds; `fonction` and `notes` default to null. */
  function NewRelation(contactId: int, contactLieId: int, typeRelation: Value, fonction: Value, notes: Value): Relation
  {
    Relation(contactId, contactLieId, Bind(typeRelation), Bind(Default(fonction, Null)), Bind(Default(notes, Null)))
  }

  /** Two relations clash on the UNIQUE (contact_id, contact_lie_id, type_relation) constraint. */
  predicate SameTriple(a: Relation, b: Relation)
  {
    a.typeRelation != Null && a.contactId == b.contactId && a.contactLieId == b.contactLieId && a.typeRelation == b.typeRelation
  }

  /** `addRelation`: INSERT OR REPLACE deletes the relation with the same triple, then
      inserts the new one under a fresh rowid. */
  function AfterAddRelation(t: Tables, contactId: int, contactLieId: int, typeRelation: Value, fonction: Value, notes: Value): (Tables, Result<int>)
  {
    var rel := NewRelation(contactId, contactLieId, typeRelation, fonction, notes);
    if !(Bindable(rel.typeRelation) && Bindable(rel.fonction) && Bindable(rel.notes)) then (t, Err(BindError))
    else
      var kept := map r | r in t.relations && !SameTriple(t.relations[r], rel) :: t.relations[r];
      var id := t.last.relations + 1;
      (t.(relations := kept[id := rel], last := t.last.(relations := id)), Ok(id))
  }

  /** `removeRelation`: by relation id alone. */
  function AfterRemoveRelation(t: Tables, relationId: int): (Tables, nat)
  {
    if relationId in t.relations then (t.(relations := t.relations - {relationId}), 1) else (t, 0)
  }

  // ------------------------------------------------------------- queries

  function ContactKey(e: Entry<Obj>): Key
  {
    [Asc(Get(e.row, "nom")), Asc(Get(e.row, "prenom"))]
  }

  function TagKey(e: Entry<Tag>): Key
  {
    [Asc(e.row.nom)]
  }

  /** `AND actif = ?` with `filters.actif ? 1 : 0`, present when `filters.actif !== undefined`. */
  predicate ActifFilter(row: Obj, filters: Obj)
  {
    Get(filters, "actif") != Undefined ==> Get(row, "actif") == Num(if Truthy(Get(filters, "actif")) then 1 else 0)
  }

  /** `AND type_personne = ?`, present when `filters.type_personne` is truthy. */
  predicate TypeFilter(row: Obj, filters: Obj)
  {
    Truthy(Get(filters, "type_personne")) ==> Get(row, "type_personne") == Get(filters, "type_personne")
  }

  predicate PassesFilters(row: Obj, filters: Obj)
  {
    ActifFilter(row, filters) && TypeFilter(row, filters)
  }

  /** A contact as the API returns it, with the lists each query attaches. */
  datatype ContactView = ContactView(
    contact: Entry<Obj>,
    tags: seq<Entry<Tag>>,
    relations: Option<seq<Entry<Obj>>>,
    interlocuteurs: Option<seq<Entry<Obj>>>)

  function ContactsOf(vs: seq<ContactView>): (es: seq<Entry<Obj>>)
    ensures |es| == |vs|
    ensures forall i :: 0 <= i < |vs| ==> es[i] == vs[i].contact
  {
    seq(|vs|, i requires 0 <= i < |vs| => vs[i].contact)
  }

  /** `getTags`: the tags linked to the contact, by name. */
  function GetTags(t: Tables, contactId: int): (r: seq<Entry<Tag>>)
    ensures forall e :: e in r <==> e.id in t.tags && e.row == t.tags[e.id] && (contactId, e.id) in t.contactTags
    ensures SortedBy(r, TagKey)
  {
    Select(t.tags, (e: Entry<Tag>) => (contactId, e.id) in t.contactTags, TagKey)
  }

  /** The columns of `contact_relations` as a row object. */
  function RelationObj(id: int, r: Relation): Obj
  {
    map["id" := Num(id), "contact_id" := Num(r.contactId), "contact_lie_id" := Num(r.contactLieId),
        "type_relation" := r.typeRelation, "fonction" := r.fonction, "notes" := r.notes]
  }

  /** `c.nom, c.prenom, c.raison_sociale, c.type_personne` */
  function LinkedSummary(contact: Obj): Obj
  {
    map k | k in contact && k in {"nom", "prenom", "raison_sociale", "type_personne"} :: contact[k]
  }

  /** The inner join of `getRelations`, keyed by relation id. */
  function RelationJoin(t: Tables): map<int, Obj>
  {
    map r | r in t.relations && t.relations[r].contactLieId in t.contacts ::
      RelationObj(r, t.relations[r]) + LinkedSummary(t.contacts[t.relations[r].contactLieId])
  }

  function RelationKey(e: Entry<Obj>): Key
  {
    [Asc(Get(e.row, "type_relation")), Asc(Get(e.row, "nom"))]
  }

  /** `getRelations`: the relations from the contact to contacts that exist, by type then linked name. */
  function GetRelations(t: Tables, contactId: int): (r: seq<Entry<Obj>>)
    ensures forall e :: e in r <==>
      && e.id in t.relations && t.relations[e.id].contactId == contactId
      && t.relations[e.id].contactLieId in t.contacts
      && e.row == RelationObj(e.id, t.relations[e.id]) + LinkedSummary(t.contacts[t.relations[e.id].contactLieId])
    ensures SortedBy(r, RelationKey)
  {
    Select(RelationJoin(t), (e: Entry<Obj>) => e.id in t.relations && t.relations[e.id].contactId == contactId, RelationKey)
  }

  /** The join of `getInterlocuteurs`: `cr.*, c.*`, where the contact's columns, `id` and
      `notes` included, overwrite the relation's. */
  function InterlocuteurJoin(t: Tables): map<int, Obj>
  {
    map r | r in t.relations && t.relations[r].contactLieId in t.contacts ::
      InterlocuteurRow(r, t.relations[r], t.contacts[t.relations[r].contactLieId])
  }

  /** One row of that join. */
  function InterlocuteurRow(relationId: int, rel: Relation, linked: Obj): Obj
  {
    RelationObj(relationId, rel) + WithId(rel.contactLieId, linked)
  }

  predicate IsInterlocuteurOf(t: Tables, contactId: int, relationId: int)
  {
    relationId in t.relations && t.relations[relationId].contactId == contactId
    && t.relations[relationId].typeRelation == Str("interlocuteur")
  }

  /** `getInterlocuteurs`: the contacts linked by an 'interlocuteur' relation, by name. */
  function GetInterlocuteurs(t: Tables, contactId: int): (r: seq<Entry<Obj>>)
    ensures forall e :: e in r <==>
      && IsInterlocuteurOf(t, contactId, e.id) && t.relations[e.id].contactLieId in t.contacts
      && e.row == InterlocuteurRow(e.id, t.relations[e.id], t.contacts[t.relations[e.id].contactLieId])
    ensures SortedBy(r, ContactKey)
  {
    Select(InterlocuteurJoin(t), (e: Entry<Obj>) => IsInterlocuteurOf(t, contactId, e.id), ContactKey)
  }

  /** `getById`: null for an unknown id. */
  function GetById(t: Tables, id: int): (r: Option<ContactView>)
    ensures r.None? <==> id !in t.contacts
    ensures r.Some? ==> r.value == ContactView(Entry(id, t.contacts[id]), GetTags(t, id),
      Some(GetRelations(t, id)), Some(GetInterlocuteurs(t, id)))
  {
    if id in t.contacts then
      Some(ContactView(Entry(id, t.contacts[id]), GetTags(t, id), Some(GetRelations(t, id)), Some(GetInterlocuteurs(t, id))))
    else None
  }

  /** `getAll`: the contacts passing the filters, by name, each with its tags and relations. */
  function GetAll(t: Tables, filters: Obj): (r: seq<ContactView>)
    ensures forall e :: e in ContactsOf(r) <==> e.id in t.contacts && e.row == t.contacts[e.id] && PassesFilters(e.row, filters)
    ensures SortedBy(ContactsOf(r), ContactKey)
    ensures forall i :: 0 <= i < |r| ==>
      r[i].tags == GetTags(t, r[i].contact.id) && r[i].relations == Some(GetRelations(t, r[i].contact.id))
      && r[i].interlocuteurs.None?
  {
    var rows := Select(t.contacts, (e: Entry<Obj>) => PassesFilters(e.row, filters), ContactKey);
    var r := seq(|rows|, i requires 0 <= i < |rows| =>
      ContactView(rows[i], GetTags(t, rows[i].id), Some(GetRelations(t, rows[i].id)), None));
    assert ContactsOf(r) == rows;
    r
  }

  /** `nom LIKE ? OR prenom LIKE ? OR raison_sociale LIKE ? OR email LIKE ?` with `%term%`. */
  predicate MatchesTerm(row: Obj, term: string)
  {
    var p := Surround(term);
    Like(Get(row, "nom"), p) || Like(Get(row, "prenom"), p) || Like(Get(row, "raison_sociale"), p) || Like(Get(row, "email"), p)
  }

  predicate SearchHit(e: Entry<Obj>, term: string, filters: Obj)
  {
    MatchesTerm(e.row, term) && PassesFilters(e.row, filters)
  }

  /** `search`: at most 50 matching contacts, by name, each with its tags; a matching
      contact is left out only when 50 contacts sort before it. */
  function Search(t: Tables, term: string, filters: Obj): (r: seq<ContactView>)
    ensures |r| <= 50
    ensures forall e :: e in ContactsOf(r) ==> e.id in t.contacts && e.row == t.contacts[e.id] && SearchHit(e, term, filters)
    ensures SortedBy(ContactsOf(r), ContactKey)
    ensures |r| < 50 ==> forall id :: id in t.contacts && SearchHit(Entry(id, t.contacts[id]), term, filters) ==>
      Entry(id, t.contacts[id]) in ContactsOf(r)
    ensures forall e, id ::
      (e in ContactsOf(r) && id in t.contacts && SearchHit(Entry(id, t.contacts[id]), term, filters)
       && Entry(id, t.contacts[id]) !in ContactsOf(r)) ==> KeyLe(ContactKey(e), ContactKey(Entry(id, t.contacts[id])))
    ensures forall i :: 0 <= i < |r| ==> r[i].tags == GetTags(t, r[i].contact.id) && r[i].relations.None? && r[i].interlocuteurs.None?
  {
    var rows := SelectLimit(t.contacts, (e: Entry<Obj>) => SearchHit(e, term, filters), ContactKey, 50);
    var r := seq(|rows|, i requires 0 <= i < |rows| => ContactView(rows[i], GetTags(t, rows[i].id), None, None));
    assert ContactsOf(r) == rows;
    r
  }

  /** `getByTag`: the contacts carrying the tag, with the `actif` filter only, by name. */
  function GetByTag(t: Tables, tagId: int, filters: Obj): (r: seq<Entry<Obj>>)
    ensures forall e :: e in r <==>
      e.id in t.contacts && e.row == t.contacts[e.id] && (e.id, tagId) in t.contactTags && ActifFilter(e.row, filters)
    ensures SortedBy(r, ContactKey)
  {
    Select(t.contacts, (e: Entry<Obj>) => (e.id, tagId) in t.contactTags && ActifFilter(e.row, filters), ContactKey)
  }

  /** A `parTag` row of `getStats`. */
  datatype TagUsage = TagUsage(nom: Value, couleur: Value, count: nat)

  datatype Stats = Stats(total: nat, actifs: nat, inactifs: nat, physiques: nat, morales: nat, parTag: seq<Entry<TagUsage>>)

  function UsageTable(t: Tables): map<int, TagUsage>
  {
    map g | g in t.tags :: TagUsage(t.tags[g].nom, t.tags[g].couleur, Usage(t.contactTags, g))
  }

  function UsageKey(e: Entry<TagUsage>): Key
  {
    [Desc(Num(e.row.count))]
  }

  /** The number of contacts whose `column` holds `v`. */
  function CountIs(contacts: map<int, Obj>, column: string, v: Value): nat
  {
    |set id | id in contacts && Get(contacts[id], column) == v|
  }

  /** The columns of the contacts table: the sixteen bound ones, the rowid and the two
      timestamps. */
  const TableColumns: set<string> := Columns + {"id", "created_at", "updated_at"}

  /** `SELECT COUNT(*) FROM contacts WHERE column = "token"` as better-sqlite3 prepares it.
      Its SQLite is built with SQLITE_DQS=0, so a double-quoted token is always a column
      name: the statement fails to prepare when no column has that name, and otherwise
      compares the two columns row by row. */
  function CountQuoted(contacts: map<int, Obj>, column: string, token: string): (r: Result<nat>)
    ensures r.Err? <==> token !in TableColumns
    ensures r.Err? ==> r.error == NoSuchColumn
  {
    if token !in TableColumns then Err(NoSuchColumn)
    else Ok(|set id | id in contacts && Get(contacts[id], column) == Get(contacts[id], token)|)
  }

  /** `getStats` as written: the kind counts quote "physique" and "morale" in double
      quotes, and the first statement that fails to prepare throws. */
  function GetStats(t: Tables): Result<Stats>
  {
    var physiques := CountQuoted(t.contacts, "type_personne", "physique");
    var morales := CountQuoted(t.contacts, "type_personne", "morale");
    if physiques.Err? then Err(physiques.error)
    else if morales.Err? then Err(morales.error)
    else
      var s := IntendedStats(t);
      Ok(s.(physiques := physiques.value, morales := morales.value))
  }

  /** No contacts column is named "physique", so `getStats` throws "no such column" on
      every database, before it counts anything. */
  lemma GetStatsThrows(t: Tables)
    ensures GetStats(t) == Err(NoSuchColumn)
  {
    assert "physique" !in TableColumns by {
      assert "physique" !in Columns;
    }
  }

  /** `getStats` as intended, with the kinds compared to the strings 'physique' and
      'morale': counts by state and by kind, and every tag with its number of contacts,
      most used first. */
  function IntendedStats(t: Tables): (s: Stats)
    ensures forall e :: e in s.parTag <==> e.id in t.tags && e.row == TagUsage(t.tags[e.id].nom, t.tags[e.id].couleur, Usage(t.contactTags, e.id))
    ensures SortedBy(s.parTag, UsageKey)
  {
    Stats(|t.contacts|,
          CountIs(t.contacts, "actif", Num(1)),
          CountIs(t.contacts, "actif", Num(0)),
          CountIs(t.contacts, "type_personne", Str("physique")),
          CountIs(t.contacts, "type_personne", Str("morale")),
          Select(UsageTable(t), (e: Entry<TagUsage>) => true, UsageKey))
  }

  // ------------------------------------------------------------- methods

  method Create(db: Database, data: Obj) returns (r: Result<int>)
    requires db.Valid()
    modifies db
    ensures db.Valid()
    ensures (db.State(), r) == AfterCreate(old(db.State()), data)
  {
    var row := NewRow(data);
    if !AllBindable(row) {
      return Err(BindError);
    }
    var id := db.last.contacts + 1;
    db.contacts := db.contacts[id := row];
    db.last := db.last.(contacts := id);
    CreateKeepsWellFormed(old(db.State()), data);
    return Ok(id);
  }

  method Update(db: Database, id: int, data: Obj) returns (r: Result<nat>)
    requires db.Valid()
    modifies db
    ensures db.Valid()
    ensures (db.State(), r) == AfterUpdate(old(db.State()), id, data)
  {
    var row := UpdatedRow(data);
    if !AllBindable(row) {
      return Err(BindError);
    }
    if id !in db.contacts {
      return Ok(0);
    }
    db.contacts := db.contacts[id := row];
    return Ok(1);
  }

  method Delete(db: Database, id: int) returns (changes: nat)
    requires db.Valid()
    modifies db
    ensures db.Valid()
    ensures (db.State(), changes) == AfterDelete(old(db.State()), id)
  {
    if id !in db.contacts {
      return 0;
    }
    var gone := ChantiersOf(db.State(), id);
    db.photos := map p | p in db.photos && db.photos[p].chantierId !in gone :: db.photos[p];
    db.chantiers := db.chantiers - gone;
    db.relations := map r | r in db.relations && db.relations[r].contactId != id && db.relations[r].contactLieId != id :: db.relations[r];
    db.contactTags := set p | p in db.contactTags && p.0 != id;
    db.contacts := db.contacts - {id};
    DeleteKeepsWellFormed(old(db.State()), id);
    return 1;
  }

  method ToggleActif(db: Database, id: int) returns (changes: nat)
    requires db.Valid()
    modifies db
    ensures db.Valid()
    ensures (db.State(), changes) == AfterToggle(old(db.State()), id)
  {
    if id !in db.contacts {
      return 0;
    }
    var row := db.contacts[id];
    db.contacts := db.contacts[id := row["actif" := Toggled(Get(row, "actif"))]];
    return 1;
  }

  method AddTag(db: Database, contactId: int, tagId: int) returns (changes: nat)
    requires db.Valid()
    modifies db
    ensures db.Valid()
    ensures (db.State(), changes) == AfterAddTag(old(db.State()), contactId, tagId)
  {
    if (contactId, tagId) in db.contactTags {
      return 0;
    }
    db.contactTags := db.contactTags + {(contactId, tagId)};
    return 1;
  }

  method RemoveTag(db: Database, contactId: int, tagId: int) returns (changes: nat)
    requires db.Valid()
    modifies db
    ensures db.Valid()
    ensures (db.State(), changes) == AfterRemoveTag(old(db.State()), contactId, tagId)
  {
    if (contactId, tagId) !in db.contactTags {
      return 0;
    }
    db.contactTags := db.contactTags - {(contactId, tagId)};
    return 1;
  }

  method AddRelation(db: Database, contactId: int, contactLieId: int, typeRelation: Value, fonction: Value, notes: Value)
    returns (r: Result<int>)
    requires db.Valid()
    modifies db
    ensures db.Valid()
    ensures (db.State(), r) == AfterAddRelation(old(db.State()), contactId, contactLieId, typeRelation, fonction, notes)
  {
    var rel := NewRelation(contactId, contactLieId, typeRelation, fonction, notes);
    if !(Bindable(rel.typeRelation) && Bindable(rel.fonction) && Bindable(rel.notes)) {
      return Err(BindError);
    }
    // OR REPLACE: the clashing row is deleted before the insert.
    db.relations := map k | k in db.relations && !SameTriple(db.relations[k], rel) :: db.relations[k];
    var id := db.last.relations + 1;
    db.relations := db.relations[id := rel];
    db.last := db.last.(relations := id);
    AddRelationKeepsWellFormed(old(db.State()), contactId, contactLieId, typeRelation, fonction, notes);
    return Ok(id);
  }

  method RemoveRelation(db: Database, relationId: int) returns (changes: nat)
    requires db.Valid()
    modifies db
    ensures db.Valid()
    ensures (db.State(), changes) == AfterRemoveRelation(old(db.State()), relationId)
  {
    if relationId !in db.relations {
      return 0;
    }
    db.relations := db.relations - {relationId};
    return 1;
  }

  // ------------------------------------------------------------- lemmas

  lemma CreateKeepsWellFormed(t: Tables, data: Obj)
    requires WellFormed(t)
    ensures WellFormed(AfterCreate(t, data).0)
  {
  }

  lemma DeleteKeepsWellFormed(t: Tables, id: int)
    requires WellFormed(t)
    ensures WellFormed(AfterDelete(t, id).0)
  {
  }

  lemma AddRelationKeepsWellFormed(t: Tables, contactId: int, contactLieId: int, typeRelation: Value, fonction: Value, notes: Value)
    requires WellFormed(t)
    ensures WellFormed(AfterAddRelation(t, contactId, contactLieId, typeRelation, fonction, notes).0)
  {
    var rel := NewRelation(contactId, contactLieId, typeRelation, fonction, notes);
    var (u, r) := AfterAddRelation(t, contactId, contactLieId, typeRelation, fonction, notes);
    if r.Ok? {
      forall a, b | a in u.relations && b in u.relations && a != b && u.relations[a].typeRelation != Null
        ensures !SameTriple(u.relations[a], u.relations[b])
      {
        if a == r.value {
          assert b in t.relations && !SameTriple(t.relations[b], rel);
        } else if b == r.value {
          assert a in t.relations && !SameTriple(t.relations[a], rel);
        } else {
          assert !SameTriple(t.relations[a], t.relations[b]);
        }
      }
    }
  }

  /** Everything but the contacts table and its counter. */
  predicate OthersUnchanged(t: Tables, u: Tables)
  {
    u.tags == t.tags && u.contactTags == t.contactTags && u.relations == t.relations
    && u.chantiers == t.chantiers && u.photos == t.photos
  }

  /** `create` fills the sixteen columns: a given value as is (`undefined` as NULL), and for a
      missing one the default: 'physique', 'France' and 1, NULL for the rest. */
  lemma NewRowDefaults(data: Obj)
    ensures NewRow(data).Keys == Columns
    ensures forall c :: c in Columns && Get(data, c) != Undefined ==> NewRow(data)[c] == data[c]
    ensures Get(data, "type_personne") == Undefined ==> NewRow(data)["type_personne"] == Str("physique")
    ensures Get(data, "pays") == Undefined ==> NewRow(data)["pays"] == Str("France")
    ensures Get(data, "actif") == Undefined ==> NewRow(data)["actif"] == Num(1)
    ensures forall c :: c in Columns - {"type_personne", "pays", "actif"} && Get(data, c) == Undefined ==> NewRow(data)[c] == Null
  {
  }

  /** `update` has no defaults: a missing field becomes NULL, `pays` and `actif` included. */
  lemma UpdatedRowNoDefaults(data: Obj)
    ensures UpdatedRow(data).Keys == Columns
    ensures forall c :: c in Columns ==> UpdatedRow(data)[c] == (if Get(data, c) == Undefined then Null else data[c])
  {
  }

  /** `create` answers a rowid larger than every existing one and adds exactly that row; it
      throws, changing nothing, when a field is a boolean. */
  lemma CreateSpec(t: Tables, data: Obj)
    requires WellFormed(t)
    ensures var (u, r) := AfterCreate(t, data);
      && (r.Ok? <==> forall c :: c in Columns ==> !Get(data, c).Bool?)
      && (r.Err? ==> u == t)
      && (r.Ok? ==>
            r.value !in t.contacts && (forall id :: id in t.contacts ==> id < r.value)
            && u.contacts == t.contacts[r.value := NewRow(data)] && OthersUnchanged(t, u) && WellFormed(u))
  {
    var row := NewRow(data);
    if forall c :: c in Columns ==> !Get(data, c).Bool? {
      assert AllBindable(row);
    } else {
      var c :| c in Columns && Get(data, c).Bool?;
      assert !Bindable(row[c]);
    }
  }

  /** `update` rewrites row `id` alone, and changes nothing when there is no such row. */
  lemma UpdateSpec(t: Tables, id: int, data: Obj)
    ensures var (u, r) := AfterUpdate(t, id, data);
      && (r.Ok? <==> forall c :: c in Columns ==> !Get(data, c).Bool?)
      && OthersUnchanged(t, u) && u.last == t.last
      && (r.Ok? ==> r.value == (if id in t.contacts then 1 else 0))
      && (r.Ok? && id in t.contacts ==> u.contacts == t.contacts[id := UpdatedRow(data)])
      && (r.Err? || id !in t.contacts ==> u == t)
  {
    var row := UpdatedRow(data);
    if forall c :: c in Columns ==> !Get(data, c).Bool? {
      assert AllBindable(row);
    } else {
      var c :| c in Columns && Get(data, c).Bool?;
      assert !Bindable(row[c]);
    }
  }

  /** `toggleActif` turns 1 into 0 and anything else into 1, in that row's `actif` only. */
  lemma ToggleSpec(t: Tables, id: int)
    ensures var (u, n) := AfterToggle(t, id);
      && OthersUnchanged(t, u) && u.last == t.last
      && u.contacts.Keys == t.contacts.Keys
      && (forall k :: k in t.contacts && k != id ==> u.contacts[k] == t.contacts[k])
      && (id in t.contacts ==>
            n == 1
            && (Get(u.contacts[id], "actif") == Num(0) <==> Get(t.contacts[id], "actif") == Num(1))
            && (Get(u.contacts[id], "actif") == Num(0) || Get(u.contacts[id], "actif") == Num(1))
            && forall c :: c != "actif" ==> Get(u.contacts[id], c) == Get(t.contacts[id], c))
      && (id !in t.contacts ==> u == t && n == 0)
  {
  }

  /** Toggling twice restores a 0/1 flag, and after one toggle the flag is always 0 or 1. */
  lemma ToggleTwice(t: Tables, id: int)
    requires id in t.contacts
    requires Get(t.contacts[id], "actif") == Num(0) || Get(t.contacts[id], "actif") == Num(1)
    ensures AfterToggle(AfterToggle(t, id).0, id).0 == t
  {
    var row := t.contacts[id];
    assert row["actif" := Toggled(Get(row, "actif"))]["actif" := Get(row, "actif")] == row;
  }

  /** Deleting a contact leaves no tag link, relation, job site or photo that hung on it, and
      removes nothing else. */
  lemma DeleteCascades(t: Tables, id: int)
    requires id in t.contacts
    ensures var u := AfterDelete(t, id).0;
      && u.contacts == t.contacts - {id} && u.tags == t.tags
      && (forall p :: p in u.contactTags <==> p in t.contactTags && p.0 != id)
      && (forall r :: r in u.relations <==> r in t.relations && t.relations[r].contactId != id && t.relations[r].contactLieId != id)
      && (forall r :: r in u.relations ==> u.relations[r] == t.relations[r])
      && (forall c :: c in u.chantiers <==> c in t.chantiers && Get(t.chantiers[c], "contact_id") != Num(id))
      && (forall c :: c in u.chantiers ==> u.chantiers[c] == t.chantiers[c])
      && (forall p :: p in u.photos <==> p in t.photos && t.photos[p].chantierId !in ChantiersOf(t, id))
      && (forall p :: p in u.photos ==> u.photos[p] == t.photos[p])
  {
  }

  /** Deleting a contact that does not exist changes nothing. */
  lemma DeleteMissing(t: Tables, id: int)
    requires id !in t.contacts
    ensures AfterDelete(t, id) == (t, 0)
  {
  }

  /** INSERT OR IGNORE: adding a tag link twice is the same as adding it once. */
  lemma AddTagIdempotent(t: Tables, contactId: int, tagId: int)
    ensures var (u, _) := AfterAddTag(t, contactId, tagId);
      && u.contactTags == t.contactTags + {(contactId, tagId)}
      && AfterAddTag(u, contactId, tagId) == (u, 0)
  {
  }

  /** `removeTag` deletes that one (contact, tag) pair and nothing else; `addTag` undoes it. */
  lemma RemoveTagSpec(t: Tables, contactId: int, tagId: int)
    ensures var (u, n) := AfterRemoveTag(t, contactId, tagId);
      && u.contactTags == t.contactTags - {(contactId, tagId)}
      && u == t.(contactTags := u.contactTags)
      && (n == 1 <==> (contactId, tagId) in t.contactTags)
      && ((contactId, tagId) in t.contactTags ==> AfterAddTag(u, contactId, tagId).0 == t)
  {
    if (contactId, tagId) in t.contactTags {
      assert t.contactTags - {(contactId, tagId)} + {(contactId, tagId)} == t.contactTags;
    }
  }

  /** INSERT OR REPLACE: afterwards the triple is held by exactly one relation, the new one
      with the new `fonction` and `notes`; every relation that did not clash keeps its id. */
  lemma AddRelationReplaces(t: Tables, contactId: int, contactLieId: int, typeRelation: Value, fonction: Value, notes: Value)
    requires WellFormed(t) && typeRelation.Str?
    requires !fonction.Bool? && !notes.Bool?
    ensures var (u, r) := AfterAddRelation(t, contactId, contactLieId, typeRelation, fonction, notes);
      var rel := Relation(contactId, contactLieId, typeRelation, Bind(Default(fonction, Null)), Bind(Default(notes, Null)));
      && r.Ok? && r.value !in t.relations
      && u.relations[r.value] == rel
      && (forall k :: k in u.relations && k != r.value ==> !SameTriple(u.relations[k], rel))
      && (forall k :: k in t.relations && !SameTriple(t.relations[k], rel) ==> k in u.relations && u.relations[k] == t.relations[k])
      && (forall k :: k in u.relations && k != r.value ==> k in t.relations)
  {
  }

  /** Re-adding the same triple with other details leaves as many relations as before. */
  lemma AddRelationNoDuplicate(t: Tables, contactId: int, contactLieId: int, typeRelation: Value, fonction: Value, notes: Value)
    requires WellFormed(t) && typeRelation.Str? && !fonction.Bool? && !notes.Bool?
    requires exists k :: k in t.relations && SameTriple(t.relations[k], NewRelation(contactId, contactLieId, typeRelation, fonction, notes))
    ensures |AfterAddRelation(t, contactId, contactLieId, typeRelation, fonction, notes).0.relations| == |t.relations|
  {
    var rel := NewRelation(contactId, contactLieId, typeRelation, fonction, notes);
    var k :| k in t.relations && SameTriple(t.relations[k], rel);
    var kept := map r | r in t.relations && !SameTriple(t.relations[r], rel) :: t.relations[r];
    assert kept.Keys == t.relations.Keys - {k} by {
      forall r | r in t.relations && r != k ensures !SameTriple(t.relations[r], rel) {
        assert !SameTriple(t.relations[r], t.relations[k]);
      }
    }
  }

  /** `removeRelation` deletes by relation id, whichever contacts the relation joins. */
  lemma RemoveRelationById(t: Tables, relationId: int)
    ensures var (u, n) := AfterRemoveRelation(t, relationId);
      u == t.(relations := t.relations - {relationId}) && (n == 1 <==> relationId in t.relations)
  {
  }

  /** Two different values split a column's counts: together they never exceed the number
      of rows, and they reach it when every row holds one of the two. */
  lemma CountsPartition(contacts: map<int, Obj>, column: string, v: Value, w: Value)
    requires v != w
    ensures CountIs(contacts, column, v) + CountIs(contacts, column, w) <= |contacts|
    ensures (forall id :: id in contacts ==> Get(contacts[id], column) in {v, w}) ==>
      CountIs(contacts, column, v) + CountIs(contacts, column, w) == |contacts|
  {
    var a := set id | id in contacts && Get(contacts[id], column) == v;
    var b := set id | id in contacts && Get(contacts[id], column) == w;
    DisjointMatches(contacts, column, v, w);
    DisjointParts(a, b, contacts.Keys);
    if forall id :: id in contacts ==> Get(contacts[id], column) in {v, w} {
      CoveringMatches(contacts, column, v, w);
    }
  }

  lemma DisjointMatches(contacts: map<int, Obj>, column: string, v: Value, w: Value)
    requires v != w
    ensures (set id | id in contacts && Get(contacts[id], column) == v) * (set id | id in contacts && Get(contacts[id], column) == w) == {}
  {
  }

  lemma CoveringMatches(contacts: map<int, Obj>, column: string, v: Value, w: Value)
    requires forall id :: id in contacts ==> Get(contacts[id], column) in {v, w}
    ensures (set id | id in contacts && Get(contacts[id], column) == v) + (set id | id in contacts && Get(contacts[id], column) == w) == contacts.Keys
  {
    forall id | id in contacts
      ensures id in (set id | id in contacts && Get(contacts[id], column) == v) + (set id | id in contacts && Get(contacts[id], column) == w)
    {
      assert Get(contacts[id], column) in {v, w};
    }
  }

  /** Two disjoint parts of a set are together no larger than it, and as large when they
      cover it. */
  lemma DisjointParts(a: set<int>, b: set<int>, keys: set<int>)
    requires a <= keys && b <= keys && a * b == {}
    ensures |a| + |b| <= |keys|
    ensures a + b == keys ==> |a| + |b| == |keys|
  {
    assert |a + b| == |a| + |b|;
    assert keys == (a + b) + (keys - (a + b));
  }

  /** The intended `getStats`: with every `actif` 0 or 1, actifs and inactifs add up to the
      total; with every kind 'physique' or 'morale', so do the two kinds. */
  lemma StatsPartition(t: Tables)
    ensures var s := IntendedStats(t);
      && s.actifs + s.inactifs <= s.total
      && s.physiques + s.morales <= s.total
      && ((forall id :: id in t.contacts ==> Get(t.contacts[id], "actif") in {Num(0), Num(1)}) ==> s.actifs + s.inactifs == s.total)
      && ((forall id :: id in t.contacts ==> Get(t.contacts[id], "type_personne") in {Str("physique"), Str("morale")}) ==>
            s.physiques + s.morales == s.total)
  {
    CountsPartition(t.contacts, "actif", Num(1), Num(0));
    CountsPartition(t.contacts, "type_personne", Str("physique"), Str("morale"));
  }

  /** In `getInterlocuteurs` the contact's columns win the name clash: a row's `id` is the
      linked contact's id, not the relation's, and its `notes` are the contact's. */
  lemma InterlocuteurColumns(relationId: int, rel: Relation, linked: Obj)
    ensures InterlocuteurRow(relationId, rel, linked)["id"] == Num(rel.contactLieId)
    ensures "notes" in linked ==> InterlocuteurRow(relationId, rel, linked)["notes"] == linked["notes"]
    ensures "fonction" !in linked ==> InterlocuteurRow(relationId, rel, linked)["fonction"] == rel.fonction
    ensures "contact_lie_id" !in linked ==> InterlocuteurRow(relationId, rel, linked)["contact_lie_id"] == Num(rel.contactLieId)
  {
  }
}

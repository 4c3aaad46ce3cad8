/**
  backend/src/models/Chantier.js: the job sites of a contact. Rows are keyed by
  the contact they belong to (`contact_id`); `create` and `update` still accept the
  older field names `client_id` and `titre`, falling back on them when the new
  ones are falsy. A job site's photos go with it (ON DELETE CASCADE).
 */
module ChantierModel {
  import opened Common
  import opened Ordering
  import opened Sql
  import opened Store
  import PhotoModel
  import ContactModel

  /** The fifteen columns `create` and `update` bind. */
  const Columns: set<string> := {
    "contact_id", "nom", "adresse", "ville", "code_postal", "date_debut", "date_fin", "statut",
    "description", "travaux_realises", "travaux_a_faire", "budget_estime", "cout_reel", "superficie", "priorite"}

  /** The value bound to `column`: `contact_id || client_id`, `nom || titre`,
      `date_fin || null`, and with `defaults` (in `create`) `statut` 'planifie' and
      `priorite` 'moyenne' when absent. */
  function Field(data: Obj, column: string, defaults: bool): Value
  {
    if column == "contact_id" then Or(Get(data, "contact_id"), Get(data, "client_id"))
    else if column == "nom" then Or(Get(data, "nom"), Get(data, "titre"))
    else if column == "date_fin" then Or(Get(data, "date_fin"), Null)
    else if defaults && column == "statut" then Default(Get(data, "statut"), Str("planifie"))
    else if defaults && column == "priorite" then Default(Get(data, "priorite"), Str("moyenne"))
    else Get(data, column)
  }

  /** The row `create` (`defaults`) or `update` writes. */
  function RowOf(data: Obj, defaults: bool): Obj
  {
    map c | c in Columns :: Bind(Field(data, c, defaults))
  }

  predicate AllBindable(row: Obj)
  {
    forall c :: c in row ==> Bindable(row[c])
  }

  // ------------------------------------------------------------- changes

  function AfterCreate(t: Tables, data: Obj): (Tables, Result<int>)
  {
    var row := RowOf(data, true);
    if !AllBindable(row) then (t, Err(BindError))
    else
      var id := t.last.chantiers + 1;
      (t.(chantiers := t.chantiers[id := row], last := t.last.(chantiers := id)), Ok(id))
  }

  function AfterUpdate(t: Tables, id: int, data: Obj): (Tables, Result<nat>)
  {
    var row := RowOf(data, false);
    if !AllBindable(row) then (t, Err(BindError))
    else if id in t.chantiers then (t.(chantiers := t.chantiers[id := row]), Ok(1))
    else (t, Ok(0))
  }

  /** `delete`: the job site and, by cascade, its photos. */
  function AfterDelete(t: Tables, id: int): (Tables, nat)
  {
    if id !in t.chantiers then (t, 0)
    else (t.(chantiers := t.chantiers - {id}, photos := (map p | p in t.photos && t.photos[p].chantierId != id :: t.photos[p])), 1)
  }

  // ------------------------------------------------------------- queries

  /** `LEFT JOIN contacts c ON ch.contact_id = c.id`: the contact a row points at, if any. */
  function ContactOf(t: Tables, row: Obj): Option<Obj>
  {
    var v := Get(row, "contact_id");
    if v.Num? && v.n in t.contacts then Some(t.contacts[v.n]) else None
  }

  /** A joined column `c.<column>`: NULL when the join found no contact. */
  function Linked(c: Option<Obj>, column: string): Value
  {
    if c.Some? then Bind(Get(c.value, column)) else Null
  }

  /** `ch.*` and the contact's name columns, as `getAll` selects them. */
  function ListRow(t: Tables, id: int, row: Obj): Obj
  {
    var c := ContactOf(t, row);
    WithId(id, row) + map["contact_nom" := Linked(c, "nom"), "contact_prenom" := Linked(c, "prenom"),
      "contact_raison_sociale" := Linked(c, "raison_sociale"), "contact_type_personne" := Linked(c, "type_personne")]
  }

  /** `getById` also selects the contact's email and phone. */
  function DetailRow(t: Tables, id: int, row: Obj): Obj
  {
    var c := ContactOf(t, row);
    ListRow(t, id, row)["contact_email" := Linked(c, "email")]["contact_telephone" := Linked(c, "telephone")]
  }

  function ListTable(t: Tables): map<int, Obj>
  {
    map id | id in t.chantiers :: ListRow(t, id, t.chantiers[id])
  }

  function LatestFirst(e: Entry<Obj>): Key
  {
    [Desc(Get(e.row, "date_debut"))]
  }

  /** `getAll`: every job site, whether or not its contact exists, latest start first. */
  function GetAll(t: Tables): (r: seq<Entry<Obj>>)
    ensures forall e :: e in r <==> e.id in t.chantiers && e.row == ListRow(t, e.id, t.chantiers[e.id])
    ensures SortedBy(r, LatestFirst)
  {
    Select(ListTable(t), (e: Entry<Obj>) => true, LatestFirst)
  }

  /** `getById`: nothing for an unknown id. */
  function GetById(t: Tables, id: int): (r: Option<Obj>)
    ensures r.None? <==> id !in t.chantiers
    ensures r.Some? ==> r.value == DetailRow(t, id, t.chantiers[id])
  {
    if id in t.chantiers then Some(DetailRow(t, id, t.chantiers[id])) else None
  }

  /** `getByContactId`, and `getByClientId`, which calls it: the contact's job sites,
      latest start first. */
  function GetByContactId(t: Tables, contactId: int): (r: seq<Entry<Obj>>)
    ensures forall e :: e in r <==> e.id in t.chantiers && e.row == t.chantiers[e.id] && Get(e.row, "contact_id") == Num(contactId)
    ensures SortedBy(r, LatestFirst)
  {
    Select(t.chantiers, (e: Entry<Obj>) => Get(e.row, "contact_id") == Num(contactId), LatestFirst)
  }

  /** `getPhotos`: the job site's photos, newest first (the query of `Photo.getByChantier`). */
  function GetPhotos(t: Tables, chantierId: int): (r: seq<Entry<Photo>>)
    ensures forall e :: e in r <==> e.id in t.photos && e.row == t.photos[e.id] && e.row.chantierId == chantierId
    ensures forall i, j :: 0 <= i < j < |r| ==> r[i].row.uploadedAt >= r[j].row.uploadedAt
  {
    PhotoModel.GetByChantier(t, chantierId)
  }

  // ------------------------------------------------------------- methods

  method Create(db: Database, data: Obj) returns (r: Result<int>)
    requires db.Valid()
    modifies db
    ensures db.Valid()
    ensures (db.State(), r) == AfterCreate(old(db.State()), data)
  {
    var row := RowOf(data, true);
    if !AllBindable(row) {
      return Err(BindError);
    }
    var id := db.last.chantiers + 1;
    db.chantiers := db.chantiers[id := row];
    db.last := db.last.(chantiers := id);
    return Ok(id);
  }

  method Update(db: Database, id: int, data: Obj) returns (r: Result<nat>)
    requires db.Valid()
    modifies db
    ensures db.Valid()
    ensures (db.State(), r) == AfterUpdate(old(db.State()), id, data)
  {
    var row := RowOf(data, false);
    if !AllBindable(row) {
      return Err(BindError);
    }
    if id !in db.chantiers {
      return Ok(0);
    }
    db.chantiers := db.chantiers[id := row];
    return Ok(1);
  }

  method Delete(db: Database, id: int) returns (changes: nat)
    requires db.Valid()
    modifies db
    ensures db.Valid()
    ensures (db.State(), changes) == AfterDelete(old(db.State()), id)
  {
    if id !in db.chantiers {
      return 0;
    }
    db.photos := map p | p in db.photos && db.photos[p].chantierId != id :: db.photos[p];
    db.chantiers := db.chantiers - {id};
    return 1;
  }

  // ------------------------------------------------------------- lemmas

  /** `create` takes `contact_id` when truthy and `client_id` otherwise, `nom` when truthy
      and `titre` otherwise, stores a falsy `date_fin` as NULL, and defaults `statut` to
      'planifie' and `priorite` to 'moyenne'. */
  lemma CreateRow(data: Obj)
    ensures var row := RowOf(data, true);
      && row.Keys == Columns
      && row["contact_id"] == Bind(if Truthy(Get(data, "contact_id")) then Get(data, "contact_id") else Get(data, "client_id"))
      && row["nom"] == Bind(if Truthy(Get(data, "nom")) then Get(data, "nom") else Get(data, "titre"))
      && (row["date_fin"] == Null <==> !Truthy(Get(data, "date_fin")))
      && (Get(data, "statut") == Undefined ==> row["statut"] == Str("planifie"))
      && (Get(data, "priorite") == Undefined ==> row["priorite"] == Str("moyenne"))
      && (forall c :: c in Columns - {"contact_id", "nom", "date_fin", "statut", "priorite"} ==> row[c] == Bind(Get(data, c)))
  {
  }

  /** `update` uses the same fallbacks but no defaults: a missing `statut` or `priorite`
      becomes NULL. */
  lemma UpdateRow(data: Obj)
    ensures var row := RowOf(data, false);
      && row.Keys == Columns
      && (forall c :: c in Columns - {"statut", "priorite"} ==> row[c] == RowOf(data, true)[c])
      && row["statut"] == Bind(Get(data, "statut")) && row["priorite"] == Bind(Get(data, "priorite"))
  {
    var row, created := RowOf(data, false), RowOf(data, true);
    forall c | c in Columns - {"statut", "priorite"} ensures row[c] == created[c] {
      assert Field(data, c, false) == Field(data, c, true);
    }
  }

  /** `create` answers a rowid above every existing one and adds that row alone. */
  lemma CreateSpec(t: Tables, data: Obj)
    requires WellFormed(t)
    ensures var (u, r) := AfterCreate(t, data);
      && (r.Err? ==> u == t)
      && (r.Ok? ==>
            r.value !in t.chantiers && (forall id :: id in t.chantiers ==> id < r.value)
            && u == t.(chantiers := t.chantiers[r.value := RowOf(data, true)], last := u.last)
            && WellFormed(u))
  {
  }

  /** `update` rewrites row `id` alone, and nothing when there is no such row. */
  lemma UpdateSpec(t: Tables, id: int, data: Obj)
    ensures var (u, r) := AfterUpdate(t, id, data);
      && (r.Ok? && id in t.chantiers ==> r.value == 1 && u == t.(chantiers := t.chantiers[id := RowOf(data, false)]))
      && (r.Err? || id !in t.chantiers ==> u == t)
  {
  }

  /** Deleting a job site leaves none of its photos, and every other photo and job site. */
  lemma DeleteCascades(t: Tables, id: int)
    requires id in t.chantiers
    ensures var u := AfterDelete(t, id).0;
      && GetPhotos(u, id) == []
      && u.chantiers == t.chantiers - {id}
      && (forall p :: p in t.photos && t.photos[p].chantierId != id ==> p in u.photos && u.photos[p] == t.photos[p])
      && u.contacts == t.contacts && u.tags == t.tags && u.contactTags == t.contactTags && u.relations == t.relations
  {
  }

  /** A job site whose contact is gone is still listed, with NULL contact columns. */
  lemma OrphanListed(t: Tables, id: int)
    requires id in t.chantiers && ContactOf(t, t.chantiers[id]).None?
    ensures exists e :: e in GetAll(t) && e.id == id && Get(e.row, "contact_nom") == Null && Get(e.row, "id") == Num(id)
  {
    var row := ListRow(t, id, t.chantiers[id]);
    ListRowColumns(t, id, t.chantiers[id]);
    assert Entry(id, row) in GetAll(t);
  }

  lemma ListRowColumns(t: Tables, id: int, row: Obj)
    ensures Get(ListRow(t, id, row), "id") == Num(id)
    ensures Get(ListRow(t, id, row), "contact_nom") == Linked(ContactOf(t, row), "nom")
  {
  }

  /** Once a contact is deleted, no job site is listed under it. */
  lemma ContactDeleteEmpties(t: Tables, contactId: int)
    requires contactId in t.contacts
    ensures GetByContactId(ContactModel.AfterDelete(t, contactId).0, contactId) == []
  {
  }
}

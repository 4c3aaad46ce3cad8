/**
  backend/src/models/Photo.js: the photos attached to a job site. A photo's row
  references its job site (FOREIGN KEY with ON DELETE CASCADE, enforced since the
  connection turns `foreign_keys` on); `uploaded_at` is the CURRENT_TIMESTAMP of
  the insert, which the model takes as the parameter `now`.
 */
module PhotoModel {
  import opened Common
  import opened Ordering
  import opened Sql
  import opened Store

  // ------------------------------------------------------------- changes

  /** `create(chantier_id, filename, original_name, description = '')`: answers the new rowid. */
  function AfterCreate(t: Tables, chantierId: int, filename: string, originalName: string, description: Value, now: int)
    : (Tables, Result<int>)
  {
    var d := Bind(Default(description, Str("")));
    if !Bindable(d) then (t, Err(BindError))
    else if chantierId !in t.chantiers then (t, Err(ForeignKeyViolation))
    else
      var id := t.last.photos + 1;
      (t.(photos := t.photos[id := Photo(chantierId, filename, originalName, d, now)], last := t.last.(photos := id)), Ok(id))
  }

  /** `delete`: answers the number of rows removed. */
  function AfterDelete(t: Tables, id: int): (Tables, nat)
  {
    if id in t.photos then (t.(photos := t.photos - {id}), 1) else (t, 0)
  }

  /** `updateDescription`: `undefined` is bound as NULL, a boolean cannot be bound. */
  function AfterUpdateDescription(t: Tables, id: int, description: Value): (Tables, Result<nat>)
  {
    var d := Bind(description);
    if !Bindable(d) then (t, Err(BindError))
    else if id in t.photos then (t.(photos := t.photos[id := t.photos[id].(description := d)]), Ok(1))
    else (t, Ok(0))
  }

  // ------------------------------------------------------------- queries

  /** `getById`: nothing for an unknown id. */
  function GetById(t: Tables, id: int): (r: Option<Entry<Photo>>)
    ensures r.None? <==> id !in t.photos
    ensures r.Some? ==> r.value == Entry(id, t.photos[id])
  {
    if id in t.photos then Some(Entry(id, t.photos[id])) else None
  }

  function NewestFirst(e: Entry<Photo>): Key
  {
    [Desc(Num(e.row.uploadedAt))]
  }

  /** `getByChantier` (and `Chantier.getPhotos`, the same query): the job site's photos,
      newest first. */
  function GetByChantier(t: Tables, chantierId: int): (r: seq<Entry<Photo>>)
    ensures forall e :: e in r <==> e.id in t.photos && e.row == t.photos[e.id] && e.row.chantierId == chantierId
    ensures forall i, j :: 0 <= i < j < |r| ==> r[i].row.uploadedAt >= r[j].row.uploadedAt
  {
    var r := Select(t.photos, (e: Entry<Photo>) => e.row.chantierId == chantierId, NewestFirst);
    forall i, j | 0 <= i < j < |r| ensures r[i].row.uploadedAt >= r[j].row.uploadedAt {
      DescTime(r[i], r[j]);
    }
    r
  }

  lemma DescTime(a: Entry<Photo>, b: Entry<Photo>)
    requires KeyLe(NewestFirst(a), NewestFirst(b))
    ensures a.row.uploadedAt >= b.row.uploadedAt
  {
    assert NewestFirst(a)[1..] == [];
  }

  // ------------------------------------------------------------- methods

  method Create(db: Database, chantierId: int, filename: string, originalName: string, description: Value, now: int)
    returns (r: Result<int>)
    requires db.Valid()
    modifies db
    ensures db.Valid()
    ensures (db.State(), r) == AfterCreate(old(db.State()), chantierId, filename, originalName, description, now)
  {
    var d := Bind(Default(description, Str("")));
    if !Bindable(d) {
      return Err(BindError);
    }
    if chantierId !in db.chantiers {
      return Err(ForeignKeyViolation);
    }
    var id := db.last.photos + 1;
    db.photos := db.photos[id := Photo(chantierId, filename, originalName, d, now)];
    db.last := db.last.(photos := id);
    return Ok(id);
  }

  method Delete(db: Database, id: int) returns (changes: nat)
    requires db.Valid()
    modifies db
    ensures db.Valid()
    ensures (db.State(), changes) == AfterDelete(old(db.State()), id)
  {
    if id !in db.photos {
      return 0;
    }
    db.photos := db.photos - {id};
    return 1;
  }

  method UpdateDescription(db: Database, id: int, description: Value) returns (r: Result<nat>)
    requires db.Valid()
    modifies db
    ensures db.Valid()
    ensures (db.State(), r) == AfterUpdateDescription(old(db.State()), id, description)
  {
    var d := Bind(description);
    if !Bindable(d) {
      return Err(BindError);
    }
    if id !in db.photos {
      return Ok(0);
    }
    db.photos := db.photos[id := db.photos[id].(description := d)];
    return Ok(1);
  }

  // ------------------------------------------------------------- lemmas

  /** A photo `create` inserts reads back with `getById` as given, its description '' when
      none was passed; only a job site that exists can take one. */
  lemma CreateThenGet(t: Tables, chantierId: int, filename: string, originalName: string, description: Value, now: int)
    requires WellFormed(t)
    ensures var (u, r) := AfterCreate(t, chantierId, filename, originalName, description, now);
      && (r.Ok? <==> !description.Bool? && chantierId in t.chantiers)
      && (r.Err? ==> u == t)
      && (r.Ok? ==>
            r.value !in t.photos
            && GetById(u, r.value) == Some(Entry(r.value, Photo(chantierId, filename, originalName,
                 if description == Undefined then Str("") else description, now)))
            && (forall id :: id != r.value ==> GetById(u, id) == GetById(t, id))
            && WellFormed(u))
  {
    var (u, r) := AfterCreate(t, chantierId, filename, originalName, description, now);
    if r.Ok? {
      assert r.value == t.last.photos + 1;
      assert IdsBelow(u.photos, u.last.photos);
    }
  }

  /** The new photo is among its job site's photos. */
  lemma CreateListed(t: Tables, chantierId: int, filename: string, originalName: string, description: Value, now: int)
    ensures var (u, r) := AfterCreate(t, chantierId, filename, originalName, description, now);
      r.Ok? ==> Entry(r.value, u.photos[r.value]) in GetByChantier(u, chantierId)
  {
  }

  /** `delete` removes that one photo: afterwards `getById` finds nothing there and every
      other photo is as it was. */
  lemma DeleteThenGet(t: Tables, id: int)
    ensures var (u, n) := AfterDelete(t, id);
      && GetById(u, id).None?
      && (n == 1 <==> GetById(t, id).Some?)
      && (forall k :: k != id ==> GetById(u, k) == GetById(t, k))
      && u == t.(photos := u.photos)
  {
  }

  /** `updateDescription` changes the description of that one photo and nothing else. */
  lemma UpdateDescriptionThenGet(t: Tables, id: int, description: Value)
    ensures var (u, r) := AfterUpdateDescription(t, id, description);
      && (r.Ok? <==> !description.Bool?)
      && (r.Ok? && id in t.photos ==>
            GetById(u, id) == Some(Entry(id, t.photos[id].(description := Bind(description)))))
      && (forall k :: k != id ==> GetById(u, k) == GetById(t, k))
      && u.photos.Keys == t.photos.Keys
      && u == t.(photos := u.photos)
  {
  }
}

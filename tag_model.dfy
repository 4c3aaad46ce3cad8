/**
  backend/src/models/Tag.js: the tags contacts are labelled with, and how many
  contacts carry each one.

  As in `ContactModel`, each statement that changes the tables is a method on
  `Store.Database` whose new state is the pure function `After...` of the old one.
 */
module TagModel {
  import opened Common
  import opened Ordering
  import opened Sql
  import opened Store
  import ContactModel

  /** The row `create` inserts: `couleur` defaults to '#6b7280' and `description` to ''. */
  function NewTag(data: Obj): Tag
  {
    Tag(Bind(Get(data, "nom")), Bind(Default(Get(data, "couleur"), Str("#6b7280"))), Bind(Default(Get(data, "description"), Str(""))))
  }

  /** The row `update` writes: the three fields as given, without defaults. */
  function UpdatedTag(data: Obj): Tag
  {
    Tag(Bind(Get(data, "nom")), Bind(Get(data, "couleur")), Bind(Get(data, "description")))
  }

  predicate TagBindable(g: Tag)
  {
    Bindable(g.nom) && Bindable(g.couleur) && Bindable(g.description)
  }

  /** Some tag other than `except` already holds the (non-NULL) name. */
  predicate NameTaken(tags: map<int, Tag>, nom: Value, except: int)
  {
    nom != Null && exists k :: k in tags && k != except && tags[k].nom == nom
  }

  // ------------------------------------------------------------- changes

  /** `create`: insert the tag and answer its rowid; a taken name violates UNIQUE. */
  function AfterCreate(t: Tables, data: Obj): (Tables, Result<int>)
  {
    var g := NewTag(data);
    if !TagBindable(g) then (t, Err(BindError))
    else if NameTaken(t.tags, g.nom, 0) then (t, Err(UniqueViolation))
    else
      var id := t.last.tags + 1;
      (t.(tags := t.tags[id := g], last := t.last.(tags := id)), Ok(id))
  }

  /** `update`: overwrite the three columns of tag `id`; answers the number of rows changed. */
  function AfterUpdate(t: Tables, id: int, data: Obj): (Tables, Result<nat>)
  {
    var g := UpdatedTag(data);
    if !TagBindable(g) then (t, Err(BindError))
    else if id !in t.tags then (t, Ok(0))
    else if NameTaken(t.tags, g.nom, id) then (t, Err(UniqueViolation))
    else (t.(tags := t.tags[id := g]), Ok(1))
  }

  /** `delete`: the tag, and by cascade every link of a contact to it. */
  function AfterDelete(t: Tables, id: int): (Tables, nat)
  {
    if id !in t.tags then (t, 0)
    else (t.(tags := t.tags - {id}, contactTags := (set p | p in t.contactTags && p.1 != id)), 1)
  }

  // ------------------------------------------------------------- queries

  /** A tag with the number of contacts carrying it (`contactCount` / `contact_count`). */
  datatype CountedTag = CountedTag(tag: Tag, count: nat)

  /** `getContactCount`: `COUNT(*)` of the tag's `contact_tags` rows. */
  function GetContactCount(t: Tables, tagId: int): (r: nat)
    ensures r == 0 <==> forall c :: (c, tagId) !in t.contactTags
    ensures r <= |t.contactTags|
  {
    UsageBounds(t.contactTags, tagId);
    Usage(t.contactTags, tagId)
  }

  lemma UsageBounds(links: set<(int, int)>, tagId: int)
    ensures Usage(links, tagId) == 0 <==> forall c :: (c, tagId) !in links
    ensures Usage(links, tagId) <= |links|
  {
    var s := set p | p in links && p.1 == tagId;
    if forall c :: (c, tagId) !in links {
      assert s == {};
    } else {
      var c :| (c, tagId) in links;
      assert (c, tagId) in s;
    }
    assert links == s + (links - s);
  }

  function NameKey(e: Entry<Tag>): Key
  {
    [Asc(e.row.nom)]
  }

  function CountedNameKey(e: Entry<CountedTag>): Key
  {
    [Asc(e.row.tag.nom)]
  }

  function Counted(t: Tables, e: Entry<Tag>): Entry<CountedTag>
  {
    Entry(e.id, CountedTag(e.row, GetContactCount(t, e.id)))
  }

  /** `getById`: null for an unknown id, else the tag and its number of contacts. */
  function GetById(t: Tables, id: int): (r: Option<Entry<CountedTag>>)
    ensures r.None? <==> id !in t.tags
    ensures r.Some? ==> r.value.id == id && r.value.row.tag == t.tags[id]
    ensures r.Some? ==> (r.value.row.count == 0 <==> forall c :: (c, id) !in t.contactTags)
  {
    if id in t.tags then Some(Counted(t, Entry(id, t.tags[id]))) else None
  }

  /** `getAll`: every tag, by name, each with its number of contacts. */
  function GetAll(t: Tables): (r: seq<Entry<CountedTag>>)
    ensures forall e :: e in r <==> e.id in t.tags && e.row == CountedTag(t.tags[e.id], Usage(t.contactTags, e.id))
    ensures SortedBy(r, CountedNameKey)
  {
    var rows := Select(t.tags, (e: Entry<Tag>) => true, NameKey);
    var r := WithCounts(t, rows);
    CountedRows(t, rows, r);
    r
  }

  /** `tags.map(tag => ({...tag, contactCount: ...}))` */
  function WithCounts(t: Tables, rows: seq<Entry<Tag>>): (r: seq<Entry<CountedTag>>)
    ensures |r| == |rows| && forall i :: 0 <= i < |rows| ==> r[i] == Counted(t, rows[i])
  {
    seq(|rows|, i requires 0 <= i < |rows| => Counted(t, rows[i]))
  }

  lemma CountedRows(t: Tables, rows: seq<Entry<Tag>>, r: seq<Entry<CountedTag>>)
    requires forall e :: e in rows <==> e.id in t.tags && e.row == t.tags[e.id]
    requires SortedBy(rows, NameKey)
    requires |r| == |rows| && forall i :: 0 <= i < |rows| ==> r[i] == Counted(t, rows[i])
    ensures forall e :: e in r <==> e.id in t.tags && e.row == CountedTag(t.tags[e.id], Usage(t.contactTags, e.id))
    ensures SortedBy(r, CountedNameKey)
  {
    forall e ensures e in r <==> e.id in t.tags && e.row == CountedTag(t.tags[e.id], Usage(t.contactTags, e.id)) {
      if e in r {
        var i :| 0 <= i < |r| && r[i] == e;
        assert rows[i] in rows;
      }
      if e.id in t.tags && e.row == CountedTag(t.tags[e.id], Usage(t.contactTags, e.id)) {
        assert Entry(e.id, t.tags[e.id]) in rows;
        var i :| 0 <= i < |rows| && rows[i] == Entry(e.id, t.tags[e.id]);
        assert r[i] == e;
      }
    }
    forall i, j | 0 <= i < j < |r| ensures KeyLe(CountedNameKey(r[i]), CountedNameKey(r[j])) {
      assert CountedNameKey(r[i]) == NameKey(rows[i]);
      assert CountedNameKey(r[j]) == NameKey(rows[j]);
    }
  }

  /** `nom = ?`: NULL (and `undefined`, bound as NULL) equals nothing. */
  predicate NamedBy(e: Entry<Tag>, nom: Value)
  {
    nom != Null && nom != Undefined && e.row.nom == nom
  }

  /** `getByNom`: the tag with exactly that name, if any; a boolean name cannot be bound. */
  function GetByNom(t: Tables, nom: Value): (r: Result<Option<Entry<Tag>>>)
    ensures r.Err? <==> nom.Bool?
    ensures r.Ok? ==> (r.value.None? <==> Bind(nom) == Null || forall k :: k in t.tags ==> t.tags[k].nom != nom)
    ensures r.Ok? && r.value.Some? ==>
      r.value.value.id in t.tags && r.value.value.row == t.tags[r.value.value.id] && r.value.value.row.nom == nom
  {
    var hits := Filter(Entries(t.tags), (e: Entry<Tag>) => NamedBy(e, nom));
    NamedHits(t, nom, hits);
    if nom.Bool? then Err(BindError)
    else if hits == [] then Ok(None)
    else Ok(Some(hits[0]))
  }

  lemma NamedHits(t: Tables, nom: Value, hits: seq<Entry<Tag>>)
    requires hits == Filter(Entries(t.tags), (e: Entry<Tag>) => NamedBy(e, nom))
    ensures hits == [] <==> Bind(nom) == Null || forall k :: k in t.tags ==> t.tags[k].nom != nom
    ensures hits != [] ==> hits[0].id in t.tags && hits[0].row == t.tags[hits[0].id] && hits[0].row.nom == nom
  {
    var s := Entries(t.tags);
    var p := (e: Entry<Tag>) => NamedBy(e, nom);
    FilterMembers(s, p);
    if hits != [] {
      var e := hits[0];
      assert e in s && p(e);
      var i :| 0 <= i < |s| && s[i] == e;
      assert e.id in t.tags && e.row == t.tags[e.id];
    }
    if Bind(nom) != Null && exists k :: k in t.tags && t.tags[k].nom == nom {
      var k :| k in t.tags && t.tags[k].nom == nom;
      var e := Entry(k, t.tags[k]);
      assert e in s && p(e);
      assert e in hits;
    }
  }

  /** `nom LIKE ? OR description LIKE ?` with `%term%`. */
  predicate TagMatches(g: Tag, term: string)
  {
    Like(g.nom, Surround(term)) || Like(g.description, Surround(term))
  }

  /** `search`: the tags whose name or description matches, by name. */
  function Search(t: Tables, term: string): (r: seq<Entry<Tag>>)
    ensures forall e :: e in r <==> e.id in t.tags && e.row == t.tags[e.id] && TagMatches(e.row, term)
    ensures SortedBy(r, NameKey)
  {
    Select(t.tags, (e: Entry<Tag>) => TagMatches(e.row, term), NameKey)
  }

  /** For a term without wildcards, `search` is a case-insensitive substring test on the
      name and on the description, a NULL description matching nothing. */
  lemma SearchIsContains(g: Tag, term: string)
    requires Literal(term) && g.nom.Str? && (g.description.Str? || g.description == Null)
    ensures TagMatches(g, term) <==>
      Contains(Lower(g.nom.s), Lower(term)) || (g.description.Str? && Contains(Lower(g.description.s), Lower(term)))
  {
    LikeIsContains(term, g.nom.s);
    if g.description.Str? {
      LikeIsContains(term, g.description.s);
    }
  }

  /** `t.*, COUNT(ct.contact_id)` grouped by tag: every tag with its number of links. */
  function CountTable(t: Tables): map<int, CountedTag>
  {
    map g | g in t.tags :: CountedTag(t.tags[g], Usage(t.contactTags, g))
  }

  /** `getAllWithCount`: the grouped join, by name. */
  function GetAllWithCount(t: Tables): (r: seq<Entry<CountedTag>>)
    ensures forall e :: e in r <==> e.id in t.tags && e.row == CountedTag(t.tags[e.id], Usage(t.contactTags, e.id))
    ensures SortedBy(r, CountedNameKey)
  {
    Select(CountTable(t), (e: Entry<CountedTag>) => true, CountedNameKey)
  }

  function UsageKey(e: Entry<CountedTag>): Key
  {
    [Desc(Num(e.row.count))]
  }

  /** `getTopUsed(limit = 10)`: the grouped join, most used first, `LIMIT limit`. */
  function GetTopUsed(t: Tables, limit: Option<int>): (r: seq<Entry<CountedTag>>)
    ensures limit.None? ==> |r| <= 10
    ensures limit.Some? && limit.value >= 0 ==> |r| <= limit.value
    ensures forall e :: e in r ==> e.id in t.tags && e.row == CountedTag(t.tags[e.id], Usage(t.contactTags, e.id))
    ensures forall i, j :: 0 <= i < j < |r| ==> r[i].row.count >= r[j].row.count
  {
    var n := if limit.None? then 10 else limit.value;
    var r := SelectLimit(CountTable(t), (e: Entry<CountedTag>) => true, UsageKey, n);
    forall i, j | 0 <= i < j < |r| ensures r[i].row.count >= r[j].row.count {
      DescCount(r[i], r[j]);
    }
    r
  }

  lemma DescCount(a: Entry<CountedTag>, b: Entry<CountedTag>)
    requires KeyLe(UsageKey(a), UsageKey(b))
    ensures a.row.count >= b.row.count
  {
    assert UsageKey(a)[1..] == [];
  }

  // ------------------------------------------------------------- methods

  method Create(db: Database, data: Obj) returns (r: Result<int>)
    requires db.Valid()
    modifies db
    ensures db.Valid()
    ensures (db.State(), r) == AfterCreate(old(db.State()), data)
  {
    var g := NewTag(data);
    if !TagBindable(g) {
      return Err(BindError);
    }
    if NameTaken(db.tags, g.nom, 0) {
      return Err(UniqueViolation);
    }
    var id := db.last.tags + 1;
    db.tags := db.tags[id := g];
    db.last := db.last.(tags := id);
    return Ok(id);
  }

  method Update(db: Database, id: int, data: Obj) returns (r: Result<nat>)
    requires db.Valid()
    modifies db
    ensures db.Valid()
    ensures (db.State(), r) == AfterUpdate(old(db.State()), id, data)
  {
    var g := UpdatedTag(data);
    if !TagBindable(g) {
      return Err(BindError);
    }
    if id !in db.tags {
      return Ok(0);
    }
    if NameTaken(db.tags, g.nom, id) {
      return Err(UniqueViolation);
    }
    db.tags := db.tags[id := g];
    return Ok(1);
  }

  method Delete(db: Database, id: int) returns (changes: nat)
    requires db.Valid()
    modifies db
    ensures db.Valid()
    ensures (db.State(), changes) == AfterDelete(old(db.State()), id)
  {
    if id !in db.tags {
      return 0;
    }
    db.contactTags := set p | p in db.contactTags && p.1 != id;
    db.tags := db.tags - {id};
    return 1;
  }

  // ------------------------------------------------------------- lemmas

  /** `create` fills in the colour and description defaults, answers a rowid above every
      existing one and adds that tag alone; a taken name or a boolean field changes nothing. */
  lemma CreateSpec(t: Tables, data: Obj)
    requires WellFormed(t)
    ensures var (u, r) := AfterCreate(t, data);
      && (Get(data, "couleur") == Undefined ==> NewTag(data).couleur == Str("#6b7280"))
      && (Get(data, "description") == Undefined ==> NewTag(data).description == Str(""))
      && (r.Err? ==> u == t)
      && (r == Err(UniqueViolation) <==> TagBindable(NewTag(data)) && NameTaken(t.tags, NewTag(data).nom, 0))
      && (r.Ok? ==>
            r.value !in t.tags && (forall id :: id in t.tags ==> id < r.value)
            && u == t.(tags := t.tags[r.value := NewTag(data)], last := u.last)
            && WellFormed(u))
  {
  }

  /** `update` overwrites that one tag; another tag's name makes it fail, changing nothing. */
  lemma UpdateSpec(t: Tables, id: int, data: Obj)
    requires WellFormed(t)
    ensures var (u, r) := AfterUpdate(t, id, data);
      && WellFormed(u)
      && (r.Ok? && id in t.tags ==> r.value == 1 && u == t.(tags := t.tags[id := UpdatedTag(data)]))
      && (r.Err? || id !in t.tags ==> u == t)
      && (r == Err(UniqueViolation) <==> TagBindable(UpdatedTag(data)) && id in t.tags && NameTaken(t.tags, UpdatedTag(data).nom, id))
  {
    var (u, r) := AfterUpdate(t, id, data);
    if r.Ok? && id in t.tags {
      var g := UpdatedTag(data);
      forall a, b | a in u.tags && b in u.tags && a != b && u.tags[a].nom != Null
        ensures u.tags[a].nom != u.tags[b].nom
      {
        if a == id {
          assert b in t.tags && b != id;
        } else if b == id {
          assert u.tags[b] == g;
          assert !NameTaken(t.tags, g.nom, id);
        }
      }
    }
  }

  /** Deleting a tag removes it and every link to it, and nothing else. */
  lemma DeleteSpec(t: Tables, id: int)
    requires WellFormed(t)
    ensures var (u, n) := AfterDelete(t, id);
      && WellFormed(u)
      && (n == 1 <==> id in t.tags)
      && u.tags == t.tags - {id}
      && (id in t.tags ==> forall p :: p in u.contactTags <==> p in t.contactTags && p.1 != id)
      && (id in t.tags ==> GetContactCount(u, id) == 0)
      && (id !in t.tags ==> u == t)
      && u.contacts == t.contacts && u.relations == t.relations && u.chantiers == t.chantiers && u.photos == t.photos
  {
  }

  /** Linking a contact to a tag raises that tag's count by one when the link is new, and
      leaves every other tag's count alone. */
  lemma AddTagCounts(t: Tables, contactId: int, tagId: int, other: int)
    ensures var u := ContactModel.AfterAddTag(t, contactId, tagId).0;
      GetContactCount(u, other) == GetContactCount(t, other) + (if other == tagId && (contactId, tagId) !in t.contactTags then 1 else 0)
  {
    UsageInsert(t.contactTags, (contactId, tagId), other);
  }

  /** Unlinking lowers that tag's count by one when the link was there, and no other count. */
  lemma RemoveTagCounts(t: Tables, contactId: int, tagId: int, other: int)
    ensures var u := ContactModel.AfterRemoveTag(t, contactId, tagId).0;
      GetContactCount(u, other) == GetContactCount(t, other) - (if other == tagId && (contactId, tagId) in t.contactTags then 1 else 0)
  {
    if (contactId, tagId) in t.contactTags {
      var rest := t.contactTags - {(contactId, tagId)};
      assert t.contactTags == rest + {(contactId, tagId)};
      UsageInsert(rest, (contactId, tagId), other);
    }
  }

  lemma UsageInsert(links: set<(int, int)>, p: (int, int), g: int)
    ensures Usage(links + {p}, g) == Usage(links, g) + (if p.1 == g && p !in links then 1 else 0)
  {
    var before := set q | q in links && q.1 == g;
    var after := set q | q in links + {p} && q.1 == g;
    if p.1 == g {
      assert after == before + {p};
      if p !in links {
        assert p !in before;
      }
    } else {
      assert after == before;
    }
  }

  /** `getAll` and `getAllWithCount` list the same tags with the same counts. */
  lemma AllAgree(t: Tables)
    ensures forall e :: e in GetAll(t) <==> e in GetAllWithCount(t)
  {
  }

  /** `getTopUsed` keeps the most used tags: a tag it leaves out is used no more than any
      tag it returns, and with fewer rows than the limit it leaves out no tag. */
  lemma TopUsedAreMostUsed(t: Tables, limit: int, id: int)
    requires id in t.tags
    ensures var r := GetTopUsed(t, Some(limit));
      (forall e :: e in r ==> e.id != id) ==> forall e :: e in r ==> e.row.count >= Usage(t.contactTags, id)
    ensures var r := GetTopUsed(t, Some(limit));
      limit < 0 || |r| < limit ==> exists e :: e in r && e.id == id
  {
    var m := CountTable(t);
    var r := GetTopUsed(t, Some(limit));
    var x := Entry(id, m[id]);
    if forall e :: e in r ==> e.id != id {
      assert x !in r;
      forall e | e in r ensures e.row.count >= Usage(t.contactTags, id) {
        DescCount(e, x);
      }
    }
    if limit < 0 || |r| < limit {
      assert x in r;
    }
  }
}

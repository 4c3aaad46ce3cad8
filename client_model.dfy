/**
  backend/src/models/Client.js: the older `clients` table, as the schema created
  at start-up declares it (`nom` NOT NULL; job sites reference their client and
  photos their job site, both ON DELETE CASCADE). `created_at` and `updated_at`
  are the CURRENT_TIMESTAMP of the statement, passed in as `now`.
 */
module ClientModel {
  import opened Common
  import opened Ordering
  import opened Sql

  /** The nine columns `create` and `update` bind. */
  const Fields: set<string> := {"nom", "prenom", "entreprise", "telephone", "email", "adresse", "ville", "code_postal", "notes"}

  datatype Client = Client(cols: Obj, createdAt: int, updatedAt: int)

  /** The tables of that schema the client operations reach: clients, each job site's
      client, each photo's job site. */
  datatype Tables = Tables(clients: map<int, Client>, chantierClient: map<int, int>, photoChantier: map<int, int>, lastClient: nat)

  predicate WellFormed(t: Tables)
  {
    (forall id :: id in t.clients ==> 1 <= id <= t.lastClient)
    && (forall id :: id in t.clients ==> Get(t.clients[id].cols, "nom") != Null)
  }

  /** The nine fields as bound: `undefined` becomes NULL. */
  function ColsOf(data: Obj): Obj
  {
    map f | f in Fields :: Bind(Get(data, f))
  }

  predicate Storable(cols: Obj)
  {
    forall f :: f in cols ==> Bindable(cols[f])
  }

  // ------------------------------------------------------------- changes

  /** `create`: a boolean cannot be bound, a NULL `nom` breaks NOT NULL. */
  function AfterCreate(t: Tables, data: Obj, now: int): (Tables, Result<int>)
  {
    var cols := ColsOf(data);
    if !Storable(cols) then (t, Err(BindError))
    else if cols["nom"] == Null then (t, Err(NotNullViolation))
    else
      var id := t.lastClient + 1;
      (t.(clients := t.clients[id := Client(cols, now, now)], lastClient := id), Ok(id))
  }

  /** `update`: the nine fields and `updated_at` of that row; answers the rows changed. */
  function AfterUpdate(t: Tables, id: int, data: Obj, now: int): (Tables, Result<nat>)
  {
    var cols := ColsOf(data);
    if !Storable(cols) then (t, Err(BindError))
    else if id !in t.clients then (t, Ok(0))
    else if cols["nom"] == Null then (t, Err(NotNullViolation))
    else (t.(clients := t.clients[id := Client(cols, t.clients[id].createdAt, now)]), Ok(1))
  }

  /** The job sites of client `id`. */
  function SitesOf(t: Tables, id: int): set<int>
  {
    set c | c in t.chantierClient && t.chantierClient[c] == id
  }

  /** `delete`: the client, by cascade its job sites, and by cascade their photos. */
  function AfterDelete(t: Tables, id: int): (Tables, nat)
  {
    if id !in t.clients then (t, 0)
    else
      var gone := SitesOf(t, id);
      (t.(clients := t.clients - {id},
          chantierClient := t.chantierClient - gone,
          photoChantier := (map p | p in t.photoChantier && t.photoChantier[p] !in gone :: t.photoChantier[p])),
       1)
  }

  // ------------------------------------------------------------- queries

  function NewestFirst(e: Entry<Client>): Key
  {
    [Desc(Num(e.row.createdAt))]
  }

  lemma DescCreated(a: Entry<Client>, b: Entry<Client>)
    requires KeyLe(NewestFirst(a), NewestFirst(b))
    ensures a.row.createdAt >= b.row.createdAt
  {
    assert NewestFirst(a)[1..] == [];
  }

  /** `getAll`: every client, most recently created first. */
  function GetAll(t: Tables): (r: seq<Entry<Client>>)
    ensures forall e :: e in r <==> e.id in t.clients && e.row == t.clients[e.id]
    ensures forall i, j :: 0 <= i < j < |r| ==> r[i].row.createdAt >= r[j].row.createdAt
  {
    var r := Select(t.clients, (e: Entry<Client>) => true, NewestFirst);
    forall i, j | 0 <= i < j < |r| ensures r[i].row.createdAt >= r[j].row.createdAt {
      DescCreated(r[i], r[j]);
    }
    r
  }

  /** `getById` */
  function GetById(t: Tables, id: int): (r: Option<Client>)
    ensures r.None? <==> id !in t.clients
    ensures r.Some? ==> r.value == t.clients[id]
  {
    if id in t.clients then Some(t.clients[id]) else None
  }

  /** `nom LIKE ? OR prenom LIKE ? OR entreprise LIKE ?` with `%term%`. */
  predicate NameMatches(c: Client, term: string)
  {
    var p := Surround(term);
    Like(Get(c.cols, "nom"), p) || Like(Get(c.cols, "prenom"), p) || Like(Get(c.cols, "entreprise"), p)
  }

  /** `searchByName`: the clients matching the term, most recently created first. */
  function SearchByName(t: Tables, term: string): (r: seq<Entry<Client>>)
    ensures forall e :: e in r <==> e.id in t.clients && e.row == t.clients[e.id] && NameMatches(e.row, term)
    ensures forall i, j :: 0 <= i < j < |r| ==> r[i].row.createdAt >= r[j].row.createdAt
  {
    var r := Select(t.clients, (e: Entry<Client>) => NameMatches(e.row, term), NewestFirst);
    forall i, j | 0 <= i < j < |r| ensures r[i].row.createdAt >= r[j].row.createdAt {
      DescCreated(r[i], r[j]);
    }
    r
  }

  // ------------------------------------------------------------- the table

  class Database {
    var clients: map<int, Client>
    var chantierClient: map<int, int>
    var photoChantier: map<int, int>
    var lastClient: nat

    function State(): Tables
      reads this
    {
      Tables(clients, chantierClient, photoChantier, lastClient)
    }

    ghost predicate Valid()
      reads this
    {
      WellFormed(State())
    }

    constructor ()
      ensures Valid() && State() == Tables(map[], map[], map[], 0)
    {
      clients, chantierClient, photoChantier, lastClient := map[], map[], map[], 0;
    }

    method Create(data: Obj, now: int) returns (r: Result<int>)
      requires Valid()
      modifies this
      ensures Valid()
      ensures (State(), r) == AfterCreate(old(State()), data, now)
    {
      var cols := ColsOf(data);
      if !Storable(cols) {
        return Err(BindError);
      }
      if cols["nom"] == Null {
        return Err(NotNullViolation);
      }
      var id := lastClient + 1;
      clients := clients[id := Client(cols, now, now)];
      lastClient := id;
      return Ok(id);
    }

    method Update(id: int, data: Obj, now: int) returns (r: Result<nat>)
      requires Valid()
      modifies this
      ensures Valid()
      ensures (State(), r) == AfterUpdate(old(State()), id, data, now)
    {
      var cols := ColsOf(data);
      if !Storable(cols) {
        return Err(BindError);
      }
      if id !in clients {
        return Ok(0);
      }
      if cols["nom"] == Null {
        return Err(NotNullViolation);
      }
      clients := clients[id := Client(cols, clients[id].createdAt, now)];
      return Ok(1);
    }

    method Delete(id: int) returns (changes: nat)
      requires Valid()
      modifies this
      ensures Valid()
      ensures (State(), changes) == AfterDelete(old(State()), id)
    {
      if id !in clients {
        return 0;
      }
      var gone := SitesOf(State(), id);
      photoChantier := map p | p in photoChantier && photoChantier[p] !in gone :: photoChantier[p];
      chantierClient := chantierClient - gone;
      clients := clients - {id};
      return 1;
    }
  }

  // ------------------------------------------------------------- lemmas

  /** `create` stores the nine given fields (missing ones as NULL) and answers a rowid above
      every existing one; it refuses a client without a name. */
  lemma CreateSpec(t: Tables, data: Obj, now: int)
    requires WellFormed(t)
    ensures var (u, r) := AfterCreate(t, data, now);
      && (r == Err(NotNullViolation) <==> Storable(ColsOf(data)) && (Get(data, "nom") == Undefined || Get(data, "nom") == Null))
      && (r.Err? ==> u == t)
      && (r.Ok? ==>
            r.value !in t.clients && (forall id :: id in t.clients ==> id < r.value)
            && u.clients == t.clients[r.value := Client(ColsOf(data), now, now)]
            && u.chantierClient == t.chantierClient && u.photoChantier == t.photoChantier
            && (forall f :: f in Fields && Get(data, f) != Undefined ==> u.clients[r.value].cols[f] == data[f])
            && WellFormed(u))
  {
  }

  /** `update` overwrites the nine fields of that client alone and keeps its creation time. */
  lemma UpdateSpec(t: Tables, id: int, data: Obj, now: int)
    ensures var (u, r) := AfterUpdate(t, id, data, now);
      && (r.Ok? && id in t.clients ==>
            r.value == 1
            && u.clients == t.clients[id := Client(ColsOf(data), t.clients[id].createdAt, now)]
            && u.chantierClient == t.chantierClient && u.photoChantier == t.photoChantier)
      && (r.Err? || id !in t.clients ==> u == t)
  {
  }

  /** Deleting a client leaves no job site of it, and no photo of those job sites. */
  lemma DeleteCascades(t: Tables, id: int)
    requires id in t.clients
    ensures var u := AfterDelete(t, id).0;
      && u.clients == t.clients - {id}
      && (forall c :: c in u.chantierClient <==> c in t.chantierClient && t.chantierClient[c] != id)
      && (forall c :: c in u.chantierClient ==> u.chantierClient[c] == t.chantierClient[c])
      && (forall p :: p in u.photoChantier <==> p in t.photoChantier && t.photoChantier[p] !in SitesOf(t, id))
      && (forall p :: p in u.photoChantier ==> u.photoChantier[p] == t.photoChantier[p])
  {
  }

  /** For a term without wildcards, `searchByName` is a case-insensitive substring test on
      the three name columns. */
  lemma SearchIsContains(c: Client, term: string)
    requires Literal(term)
    requires forall f :: f in {"nom", "prenom", "entreprise"} ==> Get(c.cols, f).Str? || Get(c.cols, f) == Null
    ensures NameMatches(c, term) <==>
      exists f :: f in {"nom", "prenom", "entreprise"} && Get(c.cols, f).Str? && Contains(Lower(Get(c.cols, f).s), Lower(term))
  {
    forall f | f in {"nom", "prenom", "entreprise"} && Get(c.cols, f).Str? {
      LikeIsContains(term, Get(c.cols, f).s);
    }
    var nom, prenom, entreprise := Get(c.cols, "nom"), Get(c.cols, "prenom"), Get(c.cols, "entreprise");
    if NameMatches(c, term) {
      if Like(nom, Surround(term)) {
        assert "nom" in {"nom", "prenom", "entreprise"};
      } else if Like(prenom, Surround(term)) {
        assert "prenom" in {"nom", "prenom", "entreprise"};
      } else {
        assert "entreprise" in {"nom", "prenom", "entreprise"};
      }
    }
  }

  /** Searching for the empty text finds every client with a name, first name or company. */
  lemma EmptySearchFindsNamed(t: Tables, id: int)
    requires id in t.clients
    requires Get(t.clients[id].cols, "nom").Str?
    ensures Entry(id, t.clients[id]) in SearchByName(t, "")
  {
    var c := t.clients[id];
    DoublePercent(Get(c.cols, "nom").s);
    assert NameMatches(c, "");
  }

  lemma DoublePercent(s: string)
    ensures LikeMatch(Surround(""), s)
  {
    assert Surround("") == "%%" && "%%"[1..] == "%";
    PercentMatchesAll(s);
  }
}

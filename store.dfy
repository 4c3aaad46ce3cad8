/**
  The contact-generation database the table models work on: contacts, tags and
  their links, relations between contacts, job sites ("chantiers") and their
  photos. Every table is a map from rowid to row with an AUTOINCREMENT counter.
  `Tables` is the whole database as a value; the class `Database` holds the same
  tables as fields that the model methods update in place.
 */
module Store {
  import opened Common
  import opened Sql

  /** A `tags` row. */
  datatype Tag = Tag(nom: Value, couleur: Value, description: Value)

  /** A `contact_relations` row: a typed edge from `contactId` to `contactLieId`. */
  datatype Relation = Relation(contactId: int, contactLieId: int, typeRelation: Value, fonction: Value, notes: Value)

  /** A `photos` row; `uploadedAt` is the CURRENT_TIMESTAMP of its insert. */
  datatype Photo = Photo(chantierId: int, filename: string, originalName: string, description: Value, uploadedAt: int)

  /** The largest rowid each AUTOINCREMENT table has handed out (`sqlite_sequence`). */
  datatype Counters = Counters(contacts: nat, tags: nat, relations: nat, chantiers: nat, photos: nat)

  datatype Tables = Tables(
    contacts: map<int, Obj>,
    tags: map<int, Tag>,
    contactTags: set<(int, int)>,
    relations: map<int, Relation>,
    chantiers: map<int, Obj>,
    photos: map<int, Photo>,
    last: Counters)

  /** The UNIQUE constraint on `tags.nom` (NULLs are never equal to each other). */
  predicate UniqueTagNames(tags: map<int, Tag>)
  {
    forall a, b :: a in tags && b in tags && a != b && tags[a].nom != Null ==> tags[a].nom != tags[b].nom
  }

  /** The UNIQUE constraint on (contact_id, contact_lie_id, type_relation). */
  predicate UniqueRelations(relations: map<int, Relation>)
  {
    forall a, b :: a in relations && b in relations && a != b && relations[a].typeRelation != Null ==>
      (relations[a].contactId, relations[a].contactLieId, relations[a].typeRelation)
      != (relations[b].contactId, relations[b].contactLieId, relations[b].typeRelation)
  }

  /** Every rowid is positive and no larger than its table's counter. */
  predicate IdsBelow<T>(m: map<int, T>, last: int)
  {
    forall id :: id in m ==> 1 <= id <= last
  }

  predicate WellFormed(t: Tables)
  {
    && IdsBelow(t.contacts, t.last.contacts)
    && IdsBelow(t.tags, t.last.tags)
    && IdsBelow(t.relations, t.last.relations)
    && IdsBelow(t.chantiers, t.last.chantiers)
    && IdsBelow(t.photos, t.last.photos)
    && UniqueTagNames(t.tags)
    && UniqueRelations(t.relations)
  }

  const Empty: Tables := Tables(map[], map[], {}, map[], map[], map[], Counters(0, 0, 0, 0, 0))

  /** `COUNT(ct.contact_id)` over a tag's links: the number of contacts carrying the tag. */
  function Usage(links: set<(int, int)>, tagId: int): nat
  {
    |set p | p in links && p.1 == tagId|
  }

  /** Row objects as the API returns them: the columns plus `id`. */
  function WithId(id: int, cols: Obj): Obj
  {
    cols["id" := Num(id)]
  }

  class Database {
    var contacts: map<int, Obj>
    var tags: map<int, Tag>
    var contactTags: set<(int, int)>
    var relations: map<int, Relation>
    var chantiers: map<int, Obj>
    var photos: map<int, Photo>
    var last: Counters

    function State(): Tables
      reads this
    {
      Tables(contacts, tags, contactTags, relations, chantiers, photos, last)
    }

    ghost predicate Valid()
      reads this
    {
      WellFormed(State())
    }

    constructor ()
      ensures Valid() && State() == Empty
    {
      contacts, tags, contactTags, relations := map[], map[], {}, map[];
      chantiers, photos, last := map[], map[], Counters(0, 0, 0, 0, 0);
    }
  }
}

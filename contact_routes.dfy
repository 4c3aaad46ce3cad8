/**
  backend/src/routes/contacts.js: the decisions the contact handlers take before
  and around the model calls. Each handler is a function from the tables and the
  request to the new tables and the response, and a method on `Store.Database`
  that performs it step by step through the `ContactModel` methods.

  The express-validator chains are reduced to what can be stated here: the
  `type_personne` and `type_relation` whitelists and the positive-integer id
  checks, the body's `contact_lie_id` included, which a form post sends as text.
  Every other rule of a chain is the parameter `valid`.
 */
module ContactRoutes {
  import opened Common
  import opened Sql
  import opened Store
  import CM = ContactModel

  const Success: nat := 200
  const Created: nat := 201
  const BadRequest: nat := 400
  const NotFound: nat := 404
  const ServerError: nat := 500

  /** A response: its status and, for the handlers that answer one, the contact. */
  datatype Response = Response(status: nat, contact: Option<CM.ContactView>)

  const PersonTypes: set<string> := {"physique", "morale"}
  const RelationTypes: set<string> := {"interlocuteur", "associe", "famille", "referent", "autre"}

  // ------------------------------------------------------------- query filters

  /** `req.query.actif === 'true' || req.query.actif === '1'` */
  predicate FlagSet(v: Value)
  {
    v == Str("true") || v == Str("1")
  }

  /** What the `filters` object holds once built from the query string: `actif` exactly
      when the query has one, as a boolean; `type_personne` only where the handler reads
      it (`withType`) and only when non-empty. */
  predicate ParsedFrom(query: Obj, withType: bool, filters: Obj)
  {
    && filters.Keys <= {"actif", "type_personne"}
    && ("actif" in filters <==> Get(query, "actif") != Undefined)
    && ("actif" in filters ==> filters["actif"] == Bool(FlagSet(Get(query, "actif"))))
    && ("type_personne" in filters <==> withType && Truthy(Get(query, "type_personne")))
    && ("type_personne" in filters ==> filters["type_personne"] == Get(query, "type_personne"))
  }

  /** The filter building of `GET /`, `GET /search/:term` (`withType`) and
      `GET /by-tag/:tagId` (without it). */
  method ParseFilters(query: Obj, withType: bool) returns (filters: Obj)
    ensures ParsedFrom(query, withType, filters)
  {
    filters := map[];
    if Get(query, "actif") != Undefined {
      filters := filters["actif" := Bool(FlagSet(Get(query, "actif")))];
    }
    if withType && Truthy(Get(query, "type_personne")) {
      filters := filters["type_personne" := Get(query, "type_personne")];
    }
  }

  /** With filters built that way, a contact is listed exactly when its `actif` is 1 for
      'true' or '1' and 0 for any other flag, and it has the requested kind; an absent
      flag or kind filters nothing. */
  lemma FiltersSelect(query: Obj, withType: bool, filters: Obj, row: Obj)
    requires ParsedFrom(query, withType, filters)
    ensures CM.PassesFilters(row, filters) <==>
      && (Get(query, "actif") != Undefined ==> Get(row, "actif") == Num(if FlagSet(Get(query, "actif")) then 1 else 0))
      && (withType && Truthy(Get(query, "type_personne")) ==> Get(row, "type_personne") == Get(query, "type_personne"))
  {
    if "actif" in filters {
      assert Get(filters, "actif") == Bool(FlagSet(Get(query, "actif")));
    } else {
      assert Get(filters, "actif") == Undefined;
    }
    if "type_personne" !in filters {
      assert Get(filters, "type_personne") == Undefined;
    }
  }

  // ------------------------------------------------------------- contact handlers

  /** `body('type_personne').optional().isIn(['physique', 'morale'])` */
  predicate PersonTypeOk(body: Obj)
  {
    var v := Get(body, "type_personne");
    v == Undefined || (v.Str? && v.s in PersonTypes)
  }

  /** `POST /`: 201 with the stored contact; 500 when the insert throws. */
  function Post(t: Tables, body: Obj, valid: bool): (Tables, Response)
  {
    if !valid || !PersonTypeOk(body) then (t, Response(BadRequest, None))
    else
      var (u, r) := CM.AfterCreate(t, body);
      if r.Err? then (u, Response(ServerError, None))
      else (u, Response(Created, CM.GetById(u, r.value)))
  }

  /** `PUT /:id`: 404 for a missing contact, else update and answer the stored contact. */
  function Put(t: Tables, id: int, body: Obj, valid: bool): (Tables, Response)
  {
    if id < 1 || !valid || !PersonTypeOk(body) then (t, Response(BadRequest, None))
    else if CM.GetById(t, id).None? then (t, Response(NotFound, None))
    else
      var (u, r) := CM.AfterUpdate(t, id, body);
      if r.Err? then (u, Response(ServerError, None))
      else (u, Response(Success, CM.GetById(u, id)))
  }

  /** `PATCH /:id/toggle-actif` */
  function Toggle(t: Tables, id: int): (Tables, Response)
  {
    if id < 1 then (t, Response(BadRequest, None))
    else if CM.GetById(t, id).None? then (t, Response(NotFound, None))
    else
      var u := CM.AfterToggle(t, id).0;
      (u, Response(Success, CM.GetById(u, id)))
  }

  /** `DELETE /:id` */
  function Delete(t: Tables, id: int): (Tables, Response)
  {
    if id < 1 then (t, Response(BadRequest, None))
    else if CM.GetById(t, id).None? then (t, Response(NotFound, None))
    else (CM.AfterDelete(t, id).0, Response(Success, None))
  }

  /** `GET /stats`: 200 with the statistics; 500 when `getStats` throws. */
  function StatsRoute(t: Tables): (nat, Option<CM.Stats>)
  {
    var s := CM.GetStats(t);
    if s.Err? then (ServerError, None) else (Success, Some(s.value))
  }

  /** With the intended statistics the same handler would answer 200 with them. */
  function IntendedStatsRoute(t: Tables): (nat, Option<CM.Stats>)
  {
    (Success, Some(CM.IntendedStats(t)))
  }

  // ------------------------------------------------------------- relation handlers

  /** `type_relation` after `.trim()`, when it passes `.notEmpty().isIn([...])`. */
  function RelationType(v: Value): Option<string>
  {
    if v.Str? && Trim(v.s) in RelationTypes then Some(Trim(v.s)) else None
  }

  predicate AllDigits(s: string)
  {
    forall i :: 0 <= i < |s| ==> '0' <= s[i] <= '9'
  }

  /** `isInt({ min: 1 })` on a body field. express-validator validates the field's text:
      `String(n)` for a number, the text itself for a string, and a text that is not
      decimal digits for anything else. The text must be an optional sign followed by
      one or more decimal digits, leading zeros allowed, and its value must be at least 1.
      The value is what reaches SQLite, whose INTEGER affinity stores such a text as
      that number. `None` is a refusal. */
  function PositiveId(v: Value): Option<int>
  {
    match v
    case Num(n) => if n >= 1 then Some(n) else None
    case Str(s) =>
      var signed := s != [] && (s[0] == '+' || s[0] == '-');
      var digits := if signed then s[1..] else s;
      if digits == [] || !AllDigits(digits) || (signed && s[0] == '-') || ValueOf(digits, 10) == 0 then None
      else Some(ValueOf(digits, 10))
    case _ => None
  }

  /** `POST /:id/relations`: the linked id must be an integer of at least 1 and the type one
      of the five; the relation is then added (replacing one with the same triple). */
  function PostRelation(t: Tables, id: int, body: Obj, valid: bool): (Tables, Response)
  {
    var lie := PositiveId(Get(body, "contact_lie_id"));
    var kind := RelationType(Get(body, "type_relation"));
    AddRelationAs(t, id, lie, kind, Get(body, "fonction"), Get(body, "notes"), valid)
  }

  /** `POST /:id/relations` once the body is read: the linked id and the type as the
      validation chain accepted them, `None` for a refusal. */
  function AddRelationAs(t: Tables, id: int, lie: Option<int>, kind: Option<string>, fonction: Value, notes: Value, valid: bool): (Tables, Response)
  {
    if id < 1 || !valid || lie.None? || kind.None? then (t, Response(BadRequest, None))
    else
      var (u, r) := CM.AfterAddRelation(t, id, lie.value, Str(kind.value), fonction, notes);
      if r.Err? then (u, Response(ServerError, None))
      else (u, Response(Created, CM.GetById(u, id)))
  }

  /** `DELETE /:id/relations/:relationId`: removes the relation by its own id alone. */
  function DeleteRelation(t: Tables, id: int, relationId: int): (Tables, Response)
  {
    if id < 1 || relationId < 1 then (t, Response(BadRequest, None))
    else
      var u := CM.AfterRemoveRelation(t, relationId).0;
      (u, Response(Success, CM.GetById(u, id)))
  }

  // ------------------------------------------------------------- handler methods

  method HandlePost(db: Database, body: Obj, valid: bool) returns (res: Response)
    requires db.Valid()
    modifies db
    ensures db.Valid()
    ensures (db.State(), res) == Post(old(db.State()), body, valid)
  {
    if !valid || !PersonTypeOk(body) {
      return Response(BadRequest, None);
    }
    var r := CM.Create(db, body);
    if r.Err? {
      return Response(ServerError, None);
    }
    return Response(Created, CM.GetById(db.State(), r.value));
  }

  method HandlePut(db: Database, id: int, body: Obj, valid: bool) returns (res: Response)
    requires db.Valid()
    modifies db
    ensures db.Valid()
    ensures (db.State(), res) == Put(old(db.State()), id, body, valid)
  {
    if id < 1 || !valid || !PersonTypeOk(body) {
      return Response(BadRequest, None);
    }
    var existing := CM.GetById(db.State(), id);
    if existing.None? {
      return Response(NotFound, None);
    }
    var r := CM.Update(db, id, body);
    if r.Err? {
      return Response(ServerError, None);
    }
    return Response(Success, CM.GetById(db.State(), id));
  }

  method HandleToggle(db: Database, id: int) returns (res: Response)
    requires db.Valid()
    modifies db
    ensures db.Valid()
    ensures (db.State(), res) == Toggle(old(db.State()), id)
  {
    if id < 1 {
      return Response(BadRequest, None);
    }
    var existing := CM.GetById(db.State(), id);
    if existing.None? {
      return Response(NotFound, None);
    }
    var _ := CM.ToggleActif(db, id);
    return Response(Success, CM.GetById(db.State(), id));
  }

  method HandleDelete(db: Database, id: int) returns (res: Response)
    requires db.Valid()
    modifies db
    ensures db.Valid()
    ensures (db.State(), res) == Delete(old(db.State()), id)
  {
    if id < 1 {
      return Response(BadRequest, None);
    }
    var existing := CM.GetById(db.State(), id);
    if existing.None? {
      return Response(NotFound, None);
    }
    var _ := CM.Delete(db, id);
    return Response(Success, None);
  }

  method HandlePostRelation(db: Database, id: int, body: Obj, valid: bool) returns (res: Response)
    requires db.Valid()
    modifies db
    ensures db.Valid()
    ensures (db.State(), res) == PostRelation(old(db.State()), id, body, valid)
  {
    var lie := PositiveId(Get(body, "contact_lie_id"));
    var kind := RelationType(Get(body, "type_relation"));
    if id < 1 || !valid || lie.None? || kind.None? {
      return Response(BadRequest, None);
    }
    var r := CM.AddRelation(db, id, lie.value, Str(kind.value), Get(body, "fonction"), Get(body, "notes"));
    if r.Err? {
      return Response(ServerError, None);
    }
    return Response(Created, CM.GetById(db.State(), id));
  }

  method HandleDeleteRelation(db: Database, id: int, relationId: int) returns (res: Response)
    requires db.Valid()
    modifies db
    ensures db.Valid()
    ensures (db.State(), res) == DeleteRelation(old(db.State()), id, relationId)
  {
    if id < 1 || relationId < 1 {
      return Response(BadRequest, None);
    }
    var _ := CM.RemoveRelation(db, relationId);
    return Response(Success, CM.GetById(db.State(), id));
  }

  // ------------------------------------------------------------- lemmas

  /** PUT, toggle and DELETE on a contact that does not exist answer 404 and change nothing. */
  lemma MissingIsNotFound(t: Tables, id: int, body: Obj)
    requires id >= 1 && id !in t.contacts && PersonTypeOk(body)
    ensures Put(t, id, body, true) == (t, Response(NotFound, None))
    ensures Toggle(t, id) == (t, Response(NotFound, None))
    ensures Delete(t, id) == (t, Response(NotFound, None))
  {
  }

  /** On a contact that exists they act and answer 200; PUT answers the rewritten row. */
  lemma ExistingIsChanged(t: Tables, id: int, body: Obj)
    requires id >= 1 && id in t.contacts && PersonTypeOk(body)
    requires forall c :: c in CM.Columns ==> !Get(body, c).Bool?
    ensures var (u, res) := Put(t, id, body, true);
      res.status == Success && res.contact.Some? && res.contact.value.contact == Entry(id, CM.UpdatedRow(body))
      && u.contacts == t.contacts[id := CM.UpdatedRow(body)]
    ensures Toggle(t, id).1.status == Success && Toggle(t, id).0 == CM.AfterToggle(t, id).0
    ensures Delete(t, id).1.status == Success && id !in Delete(t, id).0.contacts
  {
    CM.UpdateSpec(t, id, body);
  }

  /** POST answers 201 with the row `create` stored, under a new id. */
  lemma PostAnswersStored(t: Tables, body: Obj)
    requires WellFormed(t) && PersonTypeOk(body)
    requires forall c :: c in CM.Columns ==> !Get(body, c).Bool?
    ensures var (u, res) := Post(t, body, true);
      res.status == Created && res.contact.Some?
      && res.contact.value.contact.id !in t.contacts
      && res.contact.value.contact.row == CM.NewRow(body)
  {
    CM.CreateSpec(t, body);
  }

  /** `GET /stats` answers 500 on every database, since `getStats` always throws. */
  lemma StatsAlways500(t: Tables)
    ensures StatsRoute(t) == (ServerError, None)
  {
    CM.GetStatsThrows(t);
  }

  /** The intended handler answers 200 with counts whose parts add up. */
  lemma IntendedStatsAnswer(t: Tables)
    ensures var (status, s) := IntendedStatsRoute(t);
      status == Success && s == Some(CM.IntendedStats(t))
      && s.value.actifs + s.value.inactifs <= s.value.total
      && s.value.physiques + s.value.morales <= s.value.total
  {
    CM.StatsPartition(t);
  }

  /** A relation type outside the five, after trimming, or a linked id that is not an
      integer of at least 1, is refused with 400 and no change. */
  lemma RelationTypeWhitelist(t: Tables, id: int, body: Obj, valid: bool)
    ensures var (u, res) := PostRelation(t, id, body, valid);
      res.status != BadRequest <==>
        id >= 1 && valid && PositiveId(Get(body, "contact_lie_id")).Some?
        && Get(body, "type_relation").Str? && Trim(Get(body, "type_relation").s) in RelationTypes
    ensures var (u, res) := PostRelation(t, id, body, valid);
      res.status == BadRequest ==> u == t
  {
    var lie := PositiveId(Get(body, "contact_lie_id"));
    var kind := RelationType(Get(body, "type_relation"));
    if id >= 1 && valid && lie.Some? && kind.Some? {
      var (u, r) := CM.AfterAddRelation(t, id, lie.value, Str(kind.value), Get(body, "fonction"), Get(body, "notes"));
      assert PostRelation(t, id, body, valid).1.status == (if r.Err? then ServerError else Created);
    } else {
      assert PostRelation(t, id, body, valid) == (t, Response(BadRequest, None));
    }
  }

  /** Deleting a relation through any contact's URL removes it, even a relation between two
      other contacts. */
  lemma DeleteRelationAnyOwner(t: Tables, id: int, relationId: int)
    requires id >= 1 && relationId >= 1 && relationId in t.relations && t.relations[relationId].contactId != id
    ensures var (u, res) := DeleteRelation(t, id, relationId);
      res.status == Success && relationId !in u.relations && u.relations == t.relations - {relationId}
  {
  }

  /** A leading zero does not change the value of a run of digits. */
  lemma {:induction false} LeadingZero(s: string)
    ensures ValueOf("0" + s, 10) == ValueOf(s, 10)
    decreases |s|
  {
    if s != [] {
      var z := "0" + s;
      assert z[..|z| - 1] == "0" + s[..|s| - 1];
      LeadingZero(s[..|s| - 1]);
    }
  }

  /** A run of decimal digits of positive value is accepted, bare and after a `+`. */
  lemma DigitsAccepted(s: string, m: nat)
    requires s != [] && AllDigits(s) && ValueOf(s, 10) == m && m >= 1
    ensures PositiveId(Str(s)) == Some(m)
    ensures PositiveId(Str("+" + s)) == Some(m)
  {
    assert s[0] != '+' && s[0] != '-';
    assert ("+" + s)[1..] == s;
  }

  /** The id check accepts a positive id as a number and as the texts a form sends for it:
      its decimal text, with a `+` sign and with a leading zero. Each yields the number. */
  lemma {:induction false} PositiveIdAccepts(m: nat)
    requires m >= 1
    ensures PositiveId(Num(m)) == Some(m)
    ensures PositiveId(Str(NatToText(m))) == Some(m)
    ensures PositiveId(Str("+" + NatToText(m))) == Some(m)
    ensures PositiveId(Str("0" + NatToText(m))) == Some(m)
  {
    var s := NatToText(m);
    TextDigits(m);
    assert AllDigits(s);
    DigitsAccepted(s, m);
    LeadingZero(s);
    var z := "0" + s;
    assert AllDigits(z) by {
      forall i | 0 <= i < |z|
        ensures '0' <= z[i] <= '9'
      {
        if i > 0 {
          assert z[i] == s[i - 1];
        }
      }
    }
    DigitsAccepted(z, m);
  }

  /** It refuses 0 and every negative id, as a number and as text, and any text with a
      character other than a leading sign and digits. */
  lemma PositiveIdRefuses(m: nat, s: string)
    requires exists i :: 0 < i < |s| && !('0' <= s[i] <= '9')
    ensures PositiveId(Num(0 - m)) == None
    ensures PositiveId(Str(NatToText(0))) == None
    ensures PositiveId(Str("-" + NatToText(m))) == None
    ensures PositiveId(Str(s)) == None
  {
    var i :| 0 < i < |s| && !('0' <= s[i] <= '9');
    if s[0] == '+' || s[0] == '-' {
      assert s[1..][i - 1] == s[i];
    }
    assert NatToText(0) == "0";
  }

  /** A form post, whose `contact_lie_id` is the id's decimal text, is handled exactly as the
      JSON post of the same number. */
  lemma FormIdLikeJson(t: Tables, id: int, body: Obj, valid: bool, m: nat)
    requires m >= 1
    ensures PostRelation(t, id, body["contact_lie_id" := Str(NatToText(m))], valid)
         == PostRelation(t, id, body["contact_lie_id" := Num(m)], valid)
  {
    var form := body["contact_lie_id" := Str(NatToText(m))];
    var json := body["contact_lie_id" := Num(m)];
    var kind := RelationType(Get(body, "type_relation"));
    assert Get(form, "type_relation") == Get(body, "type_relation") == Get(json, "type_relation");
    assert Get(form, "fonction") == Get(body, "fonction") == Get(json, "fonction");
    assert Get(form, "notes") == Get(body, "notes") == Get(json, "notes");
    PositiveIdAccepts(m);
    calc {
      PostRelation(t, id, form, valid);
      AddRelationAs(t, id, PositiveId(Str(NatToText(m))), kind, Get(body, "fonction"), Get(body, "notes"), valid);
      AddRelationAs(t, id, Some(m), kind, Get(body, "fonction"), Get(body, "notes"), valid);
      AddRelationAs(t, id, PositiveId(Num(m)), kind, Get(body, "fonction"), Get(body, "notes"), valid);
      PostRelation(t, id, json, valid);
    }
  }
}

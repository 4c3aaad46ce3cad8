/**
  backend/src/routes/tags.js: the decisions the tag handlers take around the
  `TagModel` calls, and the `parseInt(...) || 10` limit of `GET /top/:limit?`.
  The request body is the one the validation chain hands over (already trimmed);
  its rules other than the colour format are the parameter `valid`.
 */
module TagRoutes {
  import opened Common
  import opened Sql
  import opened Store
  import TM = TagModel

  const Success: nat := 200
  const Created: nat := 201
  const BadRequest: nat := 400
  const NotFound: nat := 404
  const ServerError: nat := 500

  datatype Response = Response(status: nat, tag: Option<Entry<TM.CountedTag>>)

  // ------------------------------------------------------------- parseInt

  /** The number of leading characters of `s` that are digits in `radix`. */
  function DigitRun(s: string, radix: nat): (n: nat)
    ensures n <= |s|
    ensures forall i :: 0 <= i < n ==> DigitValue(s[i]) < radix
    ensures n < |s| ==> DigitValue(s[n]) >= radix
  {
    if s != [] && DigitValue(s[0]) < radix then 1 + DigitRun(s[1..], radix) else 0
  }

  /** `parseInt(s)` without a radix: leading white space, an optional sign, then the
      number `ParseUnsigned` reads; `None` is NaN. */
  function ParseInt(s: string): Option<int>
  {
    var u := TrimStart(s);
    if u != [] && (u[0] == '-' || u[0] == '+') then
      var p := ParseUnsigned(u[1..]);
      if p.Some? && u[0] == '-' then Some(0 - p.value) else p
    else ParseUnsigned(u)
  }

  /** A `0x` prefix for base 16, then the longest run of digits, of which there must be one. */
  function ParseUnsigned(v: string): Option<int>
  {
    var hex := |v| >= 2 && v[0] == '0' && (v[1] == 'x' || v[1] == 'X');
    var radix := if hex then 16 else 10;
    var w := if hex then v[2..] else v;
    var n := DigitRun(w, radix);
    if n == 0 then None else Some(ValueOf(w[..n], radix))
  }

  /** `parseInt(req.params.limit) || 10`, an absent parameter being `undefined`: NaN and 0
      fall back to 10. */
  function TopLimit(param: Option<string>): (n: int)
    ensures n != 0
  {
    var p := if param.Some? then ParseInt(param.value) else None;
    if p.None? || p.value == 0 then 10 else p.value
  }

  lemma {:induction false} RunOfDigits(s: string)
    requires forall i :: 0 <= i < |s| ==> '0' <= s[i] <= '9'
    ensures DigitRun(s, 10) == |s|
    decreases |s|
  {
    if s != [] {
      RunOfDigits(s[1..]);
    }
  }

  /** Decimal digits without a leading zero read back as their value. */
  lemma UnsignedDigits(s: string)
    requires s != [] && forall i :: 0 <= i < |s| ==> '0' <= s[i] <= '9'
    requires s[0] == '0' ==> |s| == 1
    ensures ParseUnsigned(s) == Some(ValueOf(s, 10))
  {
    RunOfDigits(s);
    assert s[..|s|] == s;
  }

  lemma NoLeadingSpace(s: string)
    requires s != [] && !IsSpace(s[0])
    ensures TrimStart(s) == s
  {
  }

  /** The digits of `String(m)` read back as `m`. */
  lemma {:induction false} UnsignedText(m: nat)
    ensures ParseUnsigned(NatToText(m)) == Some(m)
  {
    TextDigits(m);
    UnsignedDigits(NatToText(m));
  }

  lemma {:induction false} ParseNat(m: nat)
    ensures ParseInt(NatToText(m)) == Some(m)
  {
    var s := NatToText(m);
    TextDigits(m);
    UnsignedText(m);
    NoLeadingSpace(s);
  }

  lemma {:induction false} ParseNegative(m: nat)
    ensures ParseInt("-" + NatToText(m)) == Some(0 - m)
  {
    var s := NatToText(m);
    UnsignedText(m);
    var u := "-" + s;
    NoLeadingSpace(u);
    assert u[0] == '-' && u[1..] == s;
    assert ParseUnsigned(u[1..]) == Some(m);
    assert ParseInt(u) == Some(0 - m);
  }

  lemma {:induction false} ParseNegativeText(i: int)
    requires i < 0
    ensures ParseInt(ToText(Num(i))) == Some(i)
  {
    var m: nat := -i;
    var text := "-" + NatToText(m);
    assert ToText(Num(i)) == text;
    ParseNegative(m);
  }

  /** `parseInt` reads back the decimal text of every integer: `parseInt(String(i)) == i`. */
  lemma {:induction false} ParseIntText(i: int)
    ensures ParseInt(ToText(Num(i))) == Some(i)
  {
    if i < 0 {
      ParseNegativeText(i);
    } else {
      ParseNat(i);
    }
  }

  /** `/top` falls back to 10 without a parameter, for a non-number and for 0. */
  lemma TopLimitFallback()
    ensures TopLimit(None) == 10
    ensures TopLimit(Some("")) == 10
    ensures TopLimit(Some("abc")) == 10
    ensures TopLimit(Some("0")) == 10
  {
    NoLeadingSpace("abc");
    assert DigitRun("abc", 10) == 0;
    ParseNat(0);
    assert NatToText(0) == "0";
  }

  /** Any other number is taken as is, a negative one included. */
  lemma TopLimitNumber(i: int)
    requires i != 0
    ensures TopLimit(Some(ToText(Num(i)))) == i
  {
    ParseIntText(i);
  }

  /** `GET /top/:limit?` */
  function Top(t: Tables, param: Option<string>): seq<Entry<TM.CountedTag>>
  {
    TM.GetTopUsed(t, Some(TopLimit(param)))
  }

  /** `/top/-1` lists every tag: a negative LIMIT does not limit. */
  lemma NegativeTopListsAll(t: Tables, i: int, id: int)
    requires i < 0 && id in t.tags
    ensures exists e :: e in Top(t, Some(ToText(Num(i)))) && e.id == id
  {
    TopLimitNumber(i);
    TM.TopUsedAreMostUsed(t, i, id);
  }

  // ------------------------------------------------------------- colour

  predicate HexDigit(c: char)
  {
    '0' <= c <= '9' || 'a' <= c <= 'f' || 'A' <= c <= 'F'
  }

  /** `/^#[0-9A-Fa-f]{6}$/` */
  predicate HexColour(s: string)
  {
    |s| == 7 && s[0] == '#' && forall i :: 1 <= i < 7 ==> HexDigit(s[i])
  }

  /** `body('couleur').optional()...matches(...)`: absent, or a colour. */
  predicate ColourOk(body: Obj)
  {
    var v := Get(body, "couleur");
    v == Undefined || (v.Str? && HexColour(v.s))
  }

  // ------------------------------------------------------------- handlers

  /** `GET /:id` */
  function GetOne(t: Tables, id: int): Response
  {
    if id < 1 then Response(BadRequest, None)
    else
      var g := TM.GetById(t, id);
      if g.None? then Response(NotFound, None) else Response(Success, g)
  }

  /** `POST /`: a taken name answers 400, any other failure 500. */
  function Post(t: Tables, body: Obj, valid: bool): (Tables, Response)
  {
    if !valid || !ColourOk(body) then (t, Response(BadRequest, None))
    else
      var (u, r) := TM.AfterCreate(t, body);
      if r == Err(UniqueViolation) then (u, Response(BadRequest, None))
      else if r.Err? then (u, Response(ServerError, None))
      else (u, Response(Created, TM.GetById(u, r.value)))
  }

  /** `PUT /:id`: 404 for a missing tag, 400 for a taken name. */
  function Put(t: Tables, id: int, body: Obj, valid: bool): (Tables, Response)
  {
    if id < 1 || !valid || !ColourOk(body) then (t, Response(BadRequest, None))
    else if TM.GetById(t, id).None? then (t, Response(NotFound, None))
    else
      var (u, r) := TM.AfterUpdate(t, id, body);
      if r == Err(UniqueViolation) then (u, Response(BadRequest, None))
      else if r.Err? then (u, Response(ServerError, None))
      else (u, Response(Success, TM.GetById(u, id)))
  }

  /** `DELETE /:id`: 404 for a missing tag, 400 for a tag some contact still carries. */
  function Delete(t: Tables, id: int): (Tables, Response)
  {
    if id < 1 then (t, Response(BadRequest, None))
    else
      var g := TM.GetById(t, id);
      if g.None? then (t, Response(NotFound, None))
      else if g.value.row.count > 0 then (t, Response(BadRequest, None))
      else (TM.AfterDelete(t, id).0, Response(Success, None))
  }

  method HandlePost(db: Database, body: Obj, valid: bool) returns (res: Response)
    requires db.Valid()
    modifies db
    ensures db.Valid()
    ensures (db.State(), res) == Post(old(db.State()), body, valid)
  {
    if !valid || !ColourOk(body) {
      return Response(BadRequest, None);
    }
    var r := TM.Create(db, body);
    if r == Err(UniqueViolation) {
      return Response(BadRequest, None);
    } else if r.Err? {
      return Response(ServerError, None);
    }
    return Response(Created, TM.GetById(db.State(), r.value));
  }

  method HandlePut(db: Database, id: int, body: Obj, valid: bool) returns (res: Response)
    requires db.Valid()
    modifies db
    ensures db.Valid()
    ensures (db.State(), res) == Put(old(db.State()), id, body, valid)
  {
    if id < 1 || !valid || !ColourOk(body) {
      return Response(BadRequest, None);
    }
    var existing := TM.GetById(db.State(), id);
    if existing.None? {
      return Response(NotFound, None);
    }
    var r := TM.Update(db, id, body);
    if r == Err(UniqueViolation) {
      return Response(BadRequest, None);
    } else if r.Err? {
      return Response(ServerError, None);
    }
    return Response(Success, TM.GetById(db.State(), id));
  }

  method HandleDelete(db: Database, id: int) returns (res: Response)
    requires db.Valid()
    modifies db
    ensures db.Valid()
    ensures (db.State(), res) == Delete(old(db.State()), id)
  {
    if id < 1 {
      return Response(BadRequest, None);
    }
    var existing := TM.GetById(db.State(), id);
    if existing.None? {
      return Response(NotFound, None);
    }
    if existing.value.row.count > 0 {
      return Response(BadRequest, None);
    }
    var _ := TM.Delete(db, id);
    return Response(Success, None);
  }

  // ------------------------------------------------------------- lemmas

  /** DELETE: a missing tag answers 404, a tag in use 400, both changing nothing; an unused
      tag is deleted. */
  lemma DeleteGuards(t: Tables, id: int)
    requires id >= 1
    ensures id !in t.tags ==> Delete(t, id) == (t, Response(NotFound, None))
    ensures id in t.tags && (exists c :: (c, id) in t.contactTags) ==> Delete(t, id) == (t, Response(BadRequest, None))
    ensures id in t.tags && (forall c :: (c, id) !in t.contactTags) ==>
      Delete(t, id).1.status == Success && Delete(t, id).0.tags == t.tags - {id}
  {
  }

  /** `GET /:id` answers 404 exactly for an id no tag has, and otherwise the tag under
      that id with its number of contacts. */
  lemma GetOneFound(t: Tables, id: int)
    requires id >= 1
    ensures GetOne(t, id).status == NotFound <==> id !in t.tags
    ensures GetOne(t, id).status == Success <==> id in t.tags
    ensures id in t.tags ==> GetOne(t, id).tag == Some(Entry(id, TM.CountedTag(t.tags[id], Usage(t.contactTags, id))))
  {
  }

  /** PUT on a missing tag answers 404 without an update. */
  lemma PutMissing(t: Tables, id: int, body: Obj)
    requires id >= 1 && id !in t.tags && ColourOk(body)
    ensures Put(t, id, body, true) == (t, Response(NotFound, None))
  {
  }

  /** A name another tag holds answers 400, not 500, on create and on update, and changes
      nothing. */
  lemma DuplicateNameIs400(t: Tables, id: int, body: Obj)
    requires WellFormed(t) && ColourOk(body)
    requires TM.TagBindable(TM.NewTag(body)) && TM.TagBindable(TM.UpdatedTag(body))
    requires Get(body, "nom").Str?
    requires exists k :: k in t.tags && k != id && t.tags[k].nom == Get(body, "nom")
    ensures Post(t, body, true) == (t, Response(BadRequest, None))
    ensures id >= 1 && id in t.tags ==> Put(t, id, body, true) == (t, Response(BadRequest, None))
  {
    var k :| k in t.tags && k != id && t.tags[k].nom == Get(body, "nom");
    assert k >= 1;
    assert TM.NameTaken(t.tags, TM.NewTag(body).nom, 0);
    assert TM.NameTaken(t.tags, TM.UpdatedTag(body).nom, id);
  }

  /** The colour `create` falls back on passes the route's own colour rule. */
  lemma DefaultColourValid()
    ensures HexColour("#6b7280")
  {
  }

  /** Every tag created through `POST /` has a colour of the form the route demands. */
  lemma PostedColourValid(t: Tables, body: Obj, valid: bool)
    ensures var (u, res) := Post(t, body, valid);
      res.status == Created ==> res.tag.Some? && HexColour(res.tag.value.row.tag.couleur.s) && res.tag.value.row.tag.couleur.Str?
  {
  }
}

/**
  backend/src/routes/photos.js: the multer upload rules (file filter, size and
  count limits, stored file name) and the photo handlers around `PhotoModel`.

  A multer error (a rejected file, a file over the size limit, too many files) goes
  to the application's error handler, which answers 500. Each file reaches the handler
  with the name the disk storage gave it; the file system itself is not modelled.
 */
module PhotoRoutes {
  import opened Common
  import opened Sql
  import opened Store
  import PM = PhotoModel

  const Success: nat := 200
  const Created: nat := 201
  const BadRequest: nat := 400
  const NotFound: nat := 404
  const ServerError: nat := 500

  /** `limits.fileSize`: 10 MB. */
  const MaxFileSize: nat := 10 * 1024 * 1024
  /** `upload.array('photos', 10)` */
  const MaxFiles: nat := 10

  /** An uploaded file as multer hands it to the handler: `filename` is the name the disk
      storage gave it (see `StoredName`). */
  datatype File = File(originalName: string, mimetype: string, size: nat, filename: string)

  datatype Response = Response(status: nat, photos: seq<Entry<Photo>>)

  // ------------------------------------------------------------- path.extname

  /** The index of the last `c` in `s`, or -1. */
  function LastIndexOf(s: string, c: char): (k: int)
    ensures -1 <= k < |s|
    ensures k >= 0 ==> s[k] == c
  {
    if s == [] then -1
    else if s[|s| - 1] == c then |s| - 1
    else LastIndexOf(s[..|s| - 1], c)
  }

  /** Nothing after the index found is `c`. */
  lemma {:induction false} LastIndexOfIsLast(s: string, c: char)
    ensures forall i :: LastIndexOf(s, c) < i < |s| ==> s[i] != c
  {
    if s != [] && s[|s| - 1] != c {
      LastIndexOfIsLast(s[..|s| - 1], c);
    }
  }

  /** The path without its trailing slashes. */
  function StripSlashes(p: string): (q: string)
    ensures q <= p && (q == [] || q[|q| - 1] != '/')
  {
    if p != [] && p[|p| - 1] == '/' then StripSlashes(p[..|p| - 1]) else p
  }

  /** The extension of a base name: from its last dot, unless there is none, the dot
      starts the name, or the name is `..`. */
  function BaseExtname(b: string): string
  {
    var k := LastIndexOf(b, '.');
    if k <= 0 || b == ".." then "" else b[k..]
  }

  /** The last path segment: after the last slash, trailing slashes dropped. */
  function BaseName(p: string): (b: string)
    ensures forall i :: 0 <= i < |b| ==> b[i] != '/'
  {
    var q := StripSlashes(p);
    LastIndexOfIsLast(q, '/');
    q[LastIndexOf(q, '/') + 1..]
  }

  /** Node's POSIX `path.extname`. */
  function Extname(p: string): string
  {
    BaseExtname(BaseName(p))
  }

  /** An extension is empty, or one dot followed by characters that are not dots. */
  predicate ExtShape(e: string)
  {
    e == [] || (e[0] == '.' && forall i :: 1 <= i < |e| ==> e[i] != '.')
  }

  /** The last `c` of `a + b` is the last of `b` when `b` has one, else the last of `a`. */
  lemma {:induction false} LastIndexOfConcat(a: string, b: string, c: char)
    ensures LastIndexOf(a + b, c) == if LastIndexOf(b, c) >= 0 then |a| + LastIndexOf(b, c) else LastIndexOf(a, c)
    decreases |b|
  {
    if b == [] {
      assert a + b == a;
    } else if b[|b| - 1] != c {
      assert (a + b)[..|a + b| - 1] == a + b[..|b| - 1];
      LastIndexOfConcat(a, b[..|b| - 1], c);
    }
  }

  /** A text without `c` has no last `c`. */
  lemma {:induction false} LastIndexOfAbsent(s: string, c: char)
    requires forall i :: 0 <= i < |s| ==> s[i] != c
    ensures LastIndexOf(s, c) == -1
  {
  }

  /** The extension of a base name is the tail from its last dot, and has the shape above. */
  lemma BaseExtShape(b: string)
    ensures ExtShape(BaseExtname(b))
    ensures BaseExtname(b) != [] ==> BaseExtname(b) == b[LastIndexOf(b, '.')..]
  {
    var k := LastIndexOf(b, '.');
    LastIndexOfIsLast(b, '.');
    if k > 0 && b != ".." {
      var e := b[k..];
      forall i | 1 <= i < |e| ensures e[i] != '.' {
        assert e[i] == b[k + i];
      }
    }
  }

  /** What `path.extname` answers has that shape and holds no slash. */
  lemma ExtnameShape(p: string)
    ensures ExtShape(Extname(p))
    ensures forall i :: 0 <= i < |Extname(p)| ==> Extname(p)[i] != '/'
  {
    var b := BaseName(p);
    BaseExtShape(b);
    var e := BaseExtname(b);
    if e != [] {
      var k := LastIndexOf(b, '.');
      forall i | 0 <= i < |e| ensures e[i] != '/' {
        assert e[i] == b[k + i];
      }
    }
  }

  /** A name without slashes, not ending in one, is its own base name. */
  lemma BaseNameOfPlain(s: string)
    requires forall i :: 0 <= i < |s| ==> s[i] != '/'
    ensures BaseName(s) == s
  {
    assert s == [] || s[|s| - 1] != '/';
    assert StripSlashes(s) == s;
    LastIndexOfAbsent(s, '/');
    assert s[0..] == s;
  }

  /** A non-empty prefix without dots does not change the extension after it. */
  lemma BaseExtOfPrefixed(prefix: string, e: string)
    requires prefix != [] && forall i :: 0 <= i < |prefix| ==> prefix[i] != '.'
    requires ExtShape(e)
    ensures BaseExtname(prefix + e) == e
  {
    var s := prefix + e;
    LastIndexOfConcat(prefix, e, '.');
    LastIndexOfAbsent(prefix, '.');
    if e == [] {
      assert s == prefix;
    } else {
      LastIndexOfIsLast(e, '.');
      assert LastIndexOf(e, '.') == 0;
      assert s[|prefix|..] == e;
      assert s[0] != '.';
    }
  }

  /** The disk storage's file name: `uniqueSuffix + path.extname(file.originalname)`,
      the unique part (`Date.now()` and a random number) given as `prefix`. */
  function StoredName(prefix: string, originalName: string): string
  {
    prefix + Extname(originalName)
  }

  /** The stored name keeps the original file's extension: a prefix without dots or
      slashes changes nothing `path.extname` sees. */
  lemma StoredNameKeepsExtension(prefix: string, originalName: string)
    requires prefix != [] && forall i :: 0 <= i < |prefix| ==> prefix[i] != '.' && prefix[i] != '/'
    ensures Extname(StoredName(prefix, originalName)) == Extname(originalName)
  {
    var e := Extname(originalName);
    ExtnameShape(originalName);
    var s := prefix + e;
    forall i | 0 <= i < |s| ensures s[i] != '/' {
      if i >= |prefix| {
        assert s[i] == e[i - |prefix|];
      }
    }
    BaseNameOfPlain(s);
    BaseExtOfPrefixed(prefix, e);
  }

  // ------------------------------------------------------------- fileFilter

  /** `/jpeg|jpg|png|gif|webp/.test(s)`: the pattern is not anchored. */
  predicate ImageWord(s: string)
  {
    Contains(s, "jpeg") || Contains(s, "jpg") || Contains(s, "png") || Contains(s, "gif") || Contains(s, "webp")
  }

  /** The file filter: both the lower-cased extension and the mimetype name an image type. */
  predicate Accepted(f: File)
  {
    ImageWord(Lower(Extname(f.originalName))) && ImageWord(f.mimetype)
  }

  /** What multer lets through to the handler. */
  predicate Admitted(f: File)
  {
    Accepted(f) && f.size <= MaxFileSize
  }

  /** Multer processes the files in turn and stops at the first it refuses. */
  predicate AnyRefused(files: seq<File>)
  {
    Any(files, (f: File) => !Admitted(f))
  }

  lemma AnyRefusedIff(files: seq<File>)
    ensures AnyRefused(files) <==> exists i :: 0 <= i < |files| && !Admitted(files[i])
  {
    AnyIff(files, (f: File) => !Admitted(f));
  }

  /** Extension and mimetype are checked apart: a `.jpg` file sent as `image/png` passes. */
  lemma MismatchAccepted(f: File)
    requires Lower(Extname(f.originalName)) == ".jpg" && f.mimetype == "image/png"
    ensures Accepted(f)
  {
    JpgAndPng();
  }

  lemma JpgAndPng()
    ensures ImageWord(".jpg") && ImageWord("image/png")
  {
    assert OccursAt(".jpg", "jpg", 1);
    assert OccursAt("image/png", "png", 6);
  }

  /** A text with none of the letters j, g, w names no image type. */
  lemma NoImageLetters(s: string)
    requires forall i :: 0 <= i < |s| ==> s[i] != 'j' && s[i] != 'g' && s[i] != 'w'
    ensures !ImageWord(s)
  {
    forall k | 0 <= k <= |s| ensures !OccursAt(s, "jpeg", k) && !OccursAt(s, "jpg", k) && !OccursAt(s, "gif", k)
    {
      if k < |s| {
        assert s[k] != 'j' && s[k] != 'g';
      }
    }
    forall k | 0 <= k <= |s| ensures !OccursAt(s, "png", k) {
      if k + 2 < |s| {
        assert s[k + 2] != 'g';
      }
    }
    forall k | 0 <= k <= |s| ensures !OccursAt(s, "webp", k) {
      if k < |s| {
        assert s[k] != 'w';
      }
    }
  }

  /** A file sent as `text/plain` is refused whatever its name; so is a name without an
      extension, whatever its mimetype. */
  lemma Refused(f: File)
    requires f.mimetype == "text/plain" || Extname(f.originalName) == ""
    ensures !Accepted(f)
  {
    if f.mimetype == "text/plain" {
      NoImageLetters(f.mimetype);
    } else {
      assert Lower("") == "";
      NoImageLetters("");
    }
  }

  // ------------------------------------------------------------- handlers

  /** `POST /upload/:chantierId` with `upload.single('photo')`. */
  function UploadOne(t: Tables, chantierId: int, file: Option<File>, description: Value, now: int): (Tables, Response)
  {
    if file.Some? && !Admitted(file.value) then (t, Response(ServerError, []))
    else if file.None? then (t, Response(BadRequest, []))
    else
      var f := file.value;
      var (u, r) := PM.AfterCreate(t, chantierId, f.filename, f.originalName, Or(description, Str("")), now);
      if r.Err? then (u, Response(ServerError, []))
      else (u, Response(Created, [Entry(r.value, u.photos[r.value])]))
  }

  /** `req.files.map(...)` from the `i`-th file on, with the ids of the rows already
      inserted in `done`: one `create` per file, each with description ''; the first
      failure stops the map and the rows already inserted stay. */
  function CreateFrom(t: Tables, chantierId: int, files: seq<File>, now: int, i: nat, done: seq<int>)
    : (Tables, Result<seq<int>>)
    requires i <= |files|
    decreases |files| - i
  {
    if i == |files| then (t, Ok(done))
    else
      var c := PM.AfterCreate(t, chantierId, files[i].filename, files[i].originalName, Str(""), now);
      if c.1.Err? then (c.0, Err(c.1.error))
      else CreateFrom(c.0, chantierId, files, now, i + 1, done + [c.1.value])
  }

  function CreateAll(t: Tables, chantierId: int, files: seq<File>, now: int): (Tables, Result<seq<int>>)
  {
    CreateFrom(t, chantierId, files, now, 0, [])
  }

  function Rows(t: Tables, ids: seq<int>): seq<Entry<Photo>>
  {
    seq(|ids|, i requires 0 <= i < |ids| => Entry(ids[i], if ids[i] in t.photos then t.photos[ids[i]] else Photo(0, "", "", Null, 0)))
  }

  /** `POST /upload-multiple/:chantierId` with `upload.array('photos', 10)`. */
  function UploadMany(t: Tables, chantierId: int, files: seq<File>, now: int): (Tables, Response)
  {
    if |files| > MaxFiles || AnyRefused(files) then (t, Response(ServerError, []))
    else if files == [] then (t, Response(BadRequest, []))
    else
      var (u, r) := CreateAll(t, chantierId, files, now);
      if r.Err? then (u, Response(ServerError, []))
      else (u, Response(Created, Rows(u, r.value)))
  }

  /** `DELETE /:id` */
  function Remove(t: Tables, id: int): (Tables, Response)
  {
    if PM.GetById(t, id).None? then (t, Response(NotFound, []))
    else (PM.AfterDelete(t, id).0, Response(Success, []))
  }

  /** `PUT /:id`: answers whatever `getById` finds afterwards, nothing for a missing photo. */
  function Describe(t: Tables, id: int, description: Value): (Tables, Response)
  {
    var (u, r) := PM.AfterUpdateDescription(t, id, description);
    if r.Err? then (u, Response(ServerError, []))
    else
      var p := PM.GetById(u, id);
      (u, Response(Success, if p.Some? then [p.value] else []))
  }

  // ------------------------------------------------------------- handler methods

  method HandleUploadOne(db: Database, chantierId: int, file: Option<File>, description: Value, now: int)
    returns (res: Response)
    requires db.Valid()
    modifies db
    ensures db.Valid()
    ensures (db.State(), res) == UploadOne(old(db.State()), chantierId, file, description, now)
  {
    if file.Some? && !Admitted(file.value) {
      return Response(ServerError, []);
    }
    if file.None? {
      return Response(BadRequest, []);
    }
    var f := file.value;
    ghost var before := db.State();
    assert UploadOne(before, chantierId, file, description, now)
        == var (u, r) := PM.AfterCreate(before, chantierId, f.filename, f.originalName, Or(description, Str("")), now);
           if r.Err? then (u, Response(ServerError, [])) else (u, Response(Created, [Entry(r.value, u.photos[r.value])]));
    var r := PM.Create(db, chantierId, f.filename, f.originalName, Or(description, Str("")), now);
    if r.Err? {
      return Response(ServerError, []);
    }
    return Response(Created, [Entry(r.value, db.photos[r.value])]);
  }

  method HandleUploadMany(db: Database, chantierId: int, files: seq<File>, now: int) returns (res: Response)
    requires db.Valid()
    modifies db
    ensures db.Valid()
    ensures (db.State(), res) == UploadMany(old(db.State()), chantierId, files, now)
  {
    if |files| > MaxFiles || AnyRefused(files) {
      return Response(ServerError, []);
    }
    if files == [] {
      return Response(BadRequest, []);
    }
    ghost var start := db.State();
    var ids: seq<int> := [];
    var i := 0;
    while i < |files|
      invariant 0 <= i <= |files|
      invariant db.Valid()
      invariant CreateAll(start, chantierId, files, now) == CreateFrom(db.State(), chantierId, files, now, i, ids)
    {
      var r := PM.Create(db, chantierId, files[i].filename, files[i].originalName, Str(""), now);
      if r.Err? {
        return Response(ServerError, []);
      }
      ids := ids + [r.value];
      i := i + 1;
    }
    return Response(Created, Rows(db.State(), ids));
  }

  method HandleRemove(db: Database, id: int) returns (res: Response)
    requires db.Valid()
    modifies db
    ensures db.Valid()
    ensures (db.State(), res) == Remove(old(db.State()), id)
  {
    var photo := PM.GetById(db.State(), id);
    if photo.None? {
      return Response(NotFound, []);
    }
    var _ := PM.Delete(db, id);
    return Response(Success, []);
  }

  // ------------------------------------------------------------- lemmas

  /** Without a file the single upload answers 400, without files the multiple one too. */
  lemma NoFileIs400(t: Tables, chantierId: int, description: Value, now: int)
    ensures UploadOne(t, chantierId, None, description, now) == (t, Response(BadRequest, []))
    ensures UploadMany(t, chantierId, [], now) == (t, Response(BadRequest, []))
  {
  }

  /** More than ten files, or one that the filter or the size limit refuses, fail the whole
      request before any row is written. */
  lemma RefusedUploadWritesNothing(t: Tables, chantierId: int, files: seq<File>, now: int)
    requires |files| > MaxFiles || exists i :: 0 <= i < |files| && !Admitted(files[i])
    ensures UploadMany(t, chantierId, files, now) == (t, Response(ServerError, []))
  {
    AnyRefusedIff(files);
  }

  /** Row `key` holds file `f`, under its stored name and with the description ''. */
  ghost predicate RowFor(photos: map<int, Photo>, key: int, chantierId: int, now: int, f: File)
  {
    key in photos && photos[key] == Photo(chantierId, f.filename, f.originalName, Str(""), now)
  }

  /** Rows `first`, `first + 1`, ... hold the files from the `i`-th on. */
  ghost predicate Written(photos: map<int, Photo>, first: int, chantierId: int, files: seq<File>, now: int, i: nat)
    requires i <= |files|
  {
    forall j :: i <= j < |files| ==> RowFor(photos, first + j - i, chantierId, now, files[j])
  }

  lemma WrittenStep(photos: map<int, Photo>, first: int, chantierId: int, files: seq<File>, now: int, i: nat)
    requires i < |files| && Written(photos, first + 1, chantierId, files, now, i + 1)
    requires RowFor(photos, first, chantierId, now, files[i])
    ensures Written(photos, first, chantierId, files, now, i)
  {
    forall j | i <= j < |files| ensures RowFor(photos, first + j - i, chantierId, now, files[j]) {
      if j > i {
        assert first + 1 + j - (i + 1) == first + j - i;
      }
    }
  }

  /** For a job site that exists, each remaining file gets one new row, with the stored
      name and the description '', under the next free ids in order, after the ids already
      collected. */
  lemma {:induction false} CreateFromRows(t: Tables, chantierId: int, files: seq<File>, now: int, i: nat, done: seq<int>)
    requires i <= |files| && chantierId in t.chantiers
    ensures var c := CreateFrom(t, chantierId, files, now, i, done);
      && c.1.Ok? && |c.1.value| == |done| + |files| - i && c.1.value[..|done|] == done
      && c.0.chantiers == t.chantiers && c.0.last.photos == t.last.photos + |files| - i
      && (forall j :: |done| <= j < |c.1.value| ==> c.1.value[j] == t.last.photos + 1 + j - |done|)
      && Written(c.0.photos, t.last.photos + 1, chantierId, files, now, i)
      && (forall p :: p in t.photos && p <= t.last.photos ==> p in c.0.photos && c.0.photos[p] == t.photos[p])
    decreases |files| - i
  {
    if i < |files| {
      var id := t.last.photos + 1;
      var row := Photo(chantierId, files[i].filename, files[i].originalName, Str(""), now);
      var c := PM.AfterCreate(t, chantierId, files[i].filename, files[i].originalName, Str(""), now);
      assert c.1 == Ok(id) && c.0.photos == t.photos[id := row];
      assert c.0.chantiers == t.chantiers && c.0.last.photos == id;
      var next := done + [id];
      CreateFromRows(c.0, chantierId, files, now, i + 1, next);
      var d := CreateFrom(c.0, chantierId, files, now, i + 1, next);
      assert d == CreateFrom(t, chantierId, files, now, i, done);
      assert d.1.value[..|done|] == next[..|done|];
      assert id in c.0.photos && id <= c.0.last.photos;
      assert RowFor(d.0.photos, id, chantierId, now, files[i]);
      WrittenStep(d.0.photos, id, chantierId, files, now, i);
      forall j | |done| <= j < |d.1.value| ensures d.1.value[j] == t.last.photos + 1 + j - |done| {
        if j == |done| {
          assert d.1.value[..|next|] == next;
          assert d.1.value[j] == next[j];
        }
      }
    }
  }

  /** The multiple upload on an existing job site: one row per file, in the order sent, each
      with its stored name and the description ''; the rows that were there stay. */
  lemma CreateAllRows(t: Tables, chantierId: int, files: seq<File>, now: int)
    requires chantierId in t.chantiers
    ensures var (u, r) := CreateAll(t, chantierId, files, now);
      && r.Ok? && |r.value| == |files| && u.chantiers == t.chantiers
      && (forall j :: 0 <= j < |files| ==> r.value[j] == t.last.photos + 1 + j && r.value[j] in u.photos)
      && (forall j :: 0 <= j < |files| ==>
            u.photos[r.value[j]] == Photo(chantierId, files[j].filename, files[j].originalName, Str(""), now))
      && (forall p :: p in t.photos && p <= t.last.photos ==> p in u.photos && u.photos[p] == t.photos[p])
  {
    CreateFromRows(t, chantierId, files, now, 0, []);
    var c := CreateFrom(t, chantierId, files, now, 0, []);
    forall j | 0 <= j < |files|
      ensures c.1.value[j] == t.last.photos + 1 + j && c.1.value[j] in c.0.photos
      ensures c.0.photos[c.1.value[j]] == Photo(chantierId, files[j].filename, files[j].originalName, Str(""), now)
    {
      assert c.1.value[0 + j] == t.last.photos + 1 + j - 0;
      assert RowFor(c.0.photos, t.last.photos + 1 + j - 0, chantierId, now, files[j]);
    }
  }

  /** On a well-formed database those ids are fresh: no earlier photo is overwritten. */
  lemma CreateAllFresh(t: Tables, chantierId: int, files: seq<File>, now: int)
    requires WellFormed(t) && chantierId in t.chantiers
    ensures var (u, r) := CreateAll(t, chantierId, files, now);
      && r.Ok? && (forall j :: 0 <= j < |r.value| ==> r.value[j] !in t.photos)
      && (forall p :: p in t.photos ==> p in u.photos && u.photos[p] == t.photos[p])
  {
    CreateAllRows(t, chantierId, files, now);
  }

  /** Without the job site, the first insert fails and nothing is written. */
  lemma MissingSiteWritesNothing(t: Tables, chantierId: int, files: seq<File>, now: int)
    requires chantierId !in t.chantiers && files != []
    ensures CreateAll(t, chantierId, files, now) == (t, Err(ForeignKeyViolation))
  {
  }

  /** DELETE: an unknown photo answers 404 and changes nothing; a known one is removed. */
  lemma RemoveGuard(t: Tables, id: int)
    ensures id !in t.photos ==> Remove(t, id) == (t, Response(NotFound, []))
    ensures id in t.photos ==> Remove(t, id).1.status == Success && Remove(t, id).0.photos == t.photos - {id}
  {
  }

  /** PUT on an unknown photo answers 200 with nothing and changes nothing. */
  lemma DescribeMissing(t: Tables, id: int, description: Value)
    requires id !in t.photos && !description.Bool?
    ensures Describe(t, id, description) == (t, Response(Success, []))
  {
  }
}

/**
  frontend/src/pages/Chantiers.jsx: the job sites page. The status badge and label
  maps (which frontend/src/pages/ClientDetail.jsx repeats word for word) and the
  date split are pure; the form and photo handlers replace React state, modelled as
  the fields of `Page`.

  A status read from the API is a string or null. The maps are plain objects, so a
  status naming a property of `Object.prototype` would find that property; statuses
  are not such names, and the model does not look there.
 */
module ChantiersPage {
  import opened Common

  // ------------------------------------------------------------- status display

  /** `getStatutBadge`: the CSS class of a status, `badge-info` for any other value. */
  function Badge(statut: Value): string
  {
    if statut == Str("en_cours") then "badge-info"
    else if statut == Str("termine") then "badge-success"
    else if statut == Str("annule") then "badge-danger"
    else if statut == Str("planifie") then "badge-warning"
    else "badge-info"
  }

  /** `getStatutLabel`: the French label of a status; any other value is shown as it is. */
  function Label(statut: Value): Value
  {
    if statut == Str("en_cours") then Str("En cours")
    else if statut == Str("termine") then Str("Termin\U{E9}")
    else if statut == Str("annule") then Str("Annul\U{E9}")
    else if statut == Str("planifie") then Str("Planifi\U{E9}")
    else statut
  }

  /** The four statuses a job site can have. */
  predicate Known(statut: Value)
  {
    statut in {Str("en_cours"), Str("termine"), Str("annule"), Str("planifie")}
  }

  /** Each known status has its own badge except `en_cours`, which shares the fallback
      `badge-info`; so the badge tells apart the three other statuses and the rest. */
  lemma BadgeCases(statut: Value)
    ensures Badge(statut) in {"badge-info", "badge-success", "badge-danger", "badge-warning"}
    ensures Badge(statut) == "badge-info" <==> !Known(statut) || statut == Str("en_cours")
    ensures forall other :: Known(statut) && Known(other) && statut != other && statut != Str("en_cours") ==> Badge(statut) != Badge(other)
  {
  }

  /** The four statuses get four different labels; any other value is passed through. */
  lemma LabelCases(statut: Value)
    ensures !Known(statut) ==> Label(statut) == statut
    ensures Known(statut) ==> Label(statut) != statut && Label(statut).Str?
    ensures forall other :: Known(statut) && Known(other) && Label(statut) == Label(other) ==> statut == other
  {
  }

  // ------------------------------------------------------------- form

  /** `s.split('T')[0]`: the text before the first `T`, all of it when there is none. */
  function BeforeT(s: string): (r: string)
    ensures r <= s && 'T' !in r
    ensures |r| < |s| ==> s[|r|] == 'T'
  {
    if s == [] || s[0] == 'T' then [] else [s[0]] + BeforeT(s[1..])
  }

  /** `date?.split('T')[0] || ''` */
  function DatePart(v: Value): string
  {
    if v.Str? then BeforeT(v.s) else ""
  }

  /** A timestamp `YYYY-MM-DDThh:mm:ss` loses its time; a plain date is kept as it is. */
  lemma DatePartCases(date: string, time: string)
    requires 'T' !in date
    ensures DatePart(Str(date + "T" + time)) == date
    ensures DatePart(Str(date)) == date
  {
    var s := date + "T" + time;
    assert s[|date|] == 'T';
    assert s[..|date|] == date;
  }

  /** The initial (and reset) form state. */
  const InitialForm: Obj := map[
    "client_id" := Str(""), "titre" := Str(""), "date_debut" := Str(""), "date_fin" := Str(""),
    "statut" := Str("en_cours"), "resume_travaux" := Str(""), "notes_prochaine_fois" := Str("")]

  /** The form `handleEdit` fills from a job site. */
  function EditForm(ch: Obj): Obj
  {
    map f | f in InitialForm ::
      if f == "date_debut" || f == "date_fin" then Str(DatePart(Get(ch, f)))
      else if f == "statut" then Or(Get(ch, f), Str("en_cours"))
      else Or(Get(ch, f), Str(""))
  }

  /** The edit form has the fields of the initial form; the dates keep only their day;
      a job site without status is edited as `en_cours`; absent fields read ''. */
  lemma EditFormSpec(ch: Obj)
    ensures EditForm(ch).Keys == InitialForm.Keys
    ensures forall f :: f in {"date_debut", "date_fin"} ==> EditForm(ch)[f].Str? && 'T' !in EditForm(ch)[f].s
    ensures !Truthy(Get(ch, "statut")) ==> EditForm(ch)["statut"] == Str("en_cours")
    ensures forall f :: f in InitialForm && f !in {"date_debut", "date_fin", "statut"} && !Truthy(Get(ch, f)) ==> EditForm(ch)[f] == Str("")
    ensures forall f :: f in InitialForm && f !in {"date_debut", "date_fin"} && Truthy(Get(ch, f)) ==> EditForm(ch)[f] == ch[f]
  {
  }

  // ------------------------------------------------------------- photos

  /** `photos.filter(p => p.id !== photoId)` */
  function WithoutPhoto(photos: seq<Obj>, photoId: Value): seq<Obj>
  {
    Filter(photos, (p: Obj) => Get(p, "id") != photoId)
  }

  /** The deleted photo leaves the list; every other photo stays, in order. */
  lemma WithoutPhotoSpec(photos: seq<Obj>, photoId: Value)
    ensures IsSubsequence(WithoutPhoto(photos, photoId), photos)
    ensures forall p :: p in WithoutPhoto(photos, photoId) <==> p in photos && Get(p, "id") != photoId
  {
    FilterIsSubsequence(photos, (p: Obj) => Get(p, "id") != photoId);
    FilterMembers(photos, (p: Obj) => Get(p, "id") != photoId);
  }

  /** Only the photos with that id are dropped: the list shrinks by their number. */
  lemma {:induction false} WithoutPhotoCount(photos: seq<Obj>, photoId: Value)
    ensures |WithoutPhoto(photos, photoId)| == |photos| - |Filter(photos, (p: Obj) => Get(p, "id") == photoId)|
  {
    if photos != [] {
      WithoutPhotoCount(photos[1..], photoId);
    }
  }

  // ------------------------------------------------------------- page state

  /** The page's React state that the handlers write. */
  class Page {
    var formData: Obj
    var editingChantier: Option<Obj>
    var showModal: bool
    var photos: seq<Obj>

    constructor ()
      ensures formData == InitialForm && editingChantier == None && !showModal && photos == []
    {
      formData, editingChantier, showModal, photos := InitialForm, None, false, [];
    }

    /** `handleEdit` */
    method HandleEdit(chantier: Obj)
      modifies this
      ensures formData == EditForm(chantier) && editingChantier == Some(chantier) && showModal
      ensures photos == old(photos)
    {
      editingChantier := Some(chantier);
      formData := EditForm(chantier);
      showModal := true;
    }

    /** `handleChange`: only the named field changes. */
    method HandleChange(name: string, value: Value)
      modifies this
      ensures formData == old(formData)[name := value]
      ensures editingChantier == old(editingChantier) && showModal == old(showModal) && photos == old(photos)
    {
      formData := formData[name := value];
    }

    /** `resetForm` */
    method ResetForm()
      modifies this
      ensures formData == InitialForm && editingChantier == None && !showModal && photos == old(photos)
    {
      formData := InitialForm;
      editingChantier := None;
      showModal := false;
    }

    /** `handleDeletePhoto`: the list changes only when the user confirms and the API call
        succeeds. */
    method HandleDeletePhoto(photoId: Value, confirmed: bool, deleted: bool)
      modifies this
      ensures photos == if confirmed && deleted then WithoutPhoto(old(photos), photoId) else old(photos)
      ensures formData == old(formData) && editingChantier == old(editingChantier) && showModal == old(showModal)
    {
      if confirmed && deleted {
        photos := WithoutPhoto(photos, photoId);
      }
    }
  }
}

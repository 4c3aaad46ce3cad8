/**
  frontend/src/pages/Contacts.jsx: the contacts page. The display helpers, the list
  filter and the payload sent on submit are pure; the form handlers replace React
  state, modelled as the fields of `Page`. React applies a state update at its next
  render; the model applies it at once.

  Records from the API and the form state are `Obj` maps. Searched fields are strings
  or null, as the API returns them.
 */
module ContactsPage {
  import opened Common

  // ------------------------------------------------------------- display helpers

  /** `getContactDisplayName`: a company shows its legal name, or its `nom` when it has
      none; a person shows `nom prenom`, trimmed. */
  function DisplayName(c: Obj): Value
  {
    if Get(c, "type_personne") == Str("morale") then Or(Get(c, "raison_sociale"), Get(c, "nom"))
    else Str(Trim(ToText(Get(c, "nom")) + " " + ToText(Or(Get(c, "prenom"), Str("")))))
  }

  /** A text with no white space at either end. */
  predicate Trimmed(s: string)
  {
    s != [] && !IsSpace(s[0]) && !IsSpace(s[|s| - 1])
  }

  lemma TrimOfTrimmed(s: string)
    requires Trimmed(s)
    ensures Trim(s) == s
  {
  }

  /** A company's display name is its legal name when that is set, else its `nom`. */
  lemma DisplayNameOfCompany(c: Obj)
    requires Get(c, "type_personne") == Str("morale")
    ensures Get(c, "raison_sociale").Str? && Get(c, "raison_sociale").s != "" ==> DisplayName(c) == Get(c, "raison_sociale")
    ensures !Truthy(Get(c, "raison_sociale")) ==> DisplayName(c) == Get(c, "nom")
  {
  }

  /** One trailing space after a trimmed text is trimmed away. */
  lemma TrimTrailingSpace(s: string)
    requires Trimmed(s)
    ensures Trim(s + " ") == s
  {
    var t := s + " ";
    assert t[0] == s[0];
    assert TrimStart(t) == t;
    assert t[..|t| - 1] == s;
    assert TrimEnd(t) == TrimEnd(s);
  }

  /** Two trimmed texts joined by a space are trimmed. */
  lemma JoinedTrimmed(a: string, b: string)
    requires Trimmed(a) && Trimmed(b)
    ensures Trimmed(a + " " + b)
  {
    var s := a + " " + b;
    assert s[0] == a[0] && s[|s| - 1] == b[|b| - 1];
  }

  /** A person's display name is `nom prenom`. */
  lemma DisplayNameOfPerson(c: Obj, nom: string, prenom: string)
    requires Get(c, "type_personne") != Str("morale")
    requires Get(c, "nom") == Str(nom) && Trimmed(nom) && Get(c, "prenom") == Str(prenom) && Trimmed(prenom)
    ensures DisplayName(c) == Str(nom + " " + prenom)
  {
    assert ToText(Or(Get(c, "prenom"), Str(""))) == prenom;
    JoinedTrimmed(nom, prenom);
    TrimOfTrimmed(nom + " " + prenom);
  }

  /** Without a first name the trailing space is trimmed away: the display name is `nom`. */
  lemma DisplayNameWithoutPrenom(c: Obj, nom: string)
    requires Get(c, "type_personne") != Str("morale")
    requires Get(c, "nom") == Str(nom) && Trimmed(nom) && !Truthy(Get(c, "prenom"))
    ensures DisplayName(c) == Str(nom)
  {
    assert ToText(Or(Get(c, "prenom"), Str(""))) == "";
    assert nom + " " + "" == nom + " ";
    TrimTrailingSpace(nom);
  }

  /** `getContactSubtitle` */
  function Subtitle(c: Obj): string
  {
    if Get(c, "type_personne") == Str("morale") then
      var forme := Get(c, "forme_juridique");
      "Entreprise" + (if Truthy(forme) then " (" + ToText(forme) + ")" else "")
    else "Particulier"
  }

  /** Only companies are called `Entreprise`, with their legal form in brackets when set. */
  lemma SubtitleCases(c: Obj)
    ensures Subtitle(c) == "Particulier" <==> Get(c, "type_personne") != Str("morale")
    ensures Get(c, "type_personne") == Str("morale") && Get(c, "forme_juridique").Str? && Get(c, "forme_juridique").s != ""
      ==> Subtitle(c) == "Entreprise (" + Get(c, "forme_juridique").s + ")"
    ensures Get(c, "type_personne") == Str("morale") && !Truthy(Get(c, "forme_juridique")) ==> Subtitle(c) == "Entreprise"
  {
    if Get(c, "type_personne") == Str("morale") {
      assert Subtitle(c)[0] == 'E' != "Particulier"[0];
    }
  }

  // ------------------------------------------------------------- list filter

  /** The fields the search box looks in. */
  const SearchFields: seq<string> := ["nom", "prenom", "raison_sociale", "email", "telephone"]

  predicate MatchesSearch(c: Obj, term: string)
  {
    exists i :: 0 <= i < |SearchFields| && FieldIncludes(Get(c, SearchFields[i]), Lower(term))
  }

  /** The body of the `filter` callback: search, then type (`all`, `physique`, `morale`),
      then state (`all`, `actif`, `inactif`). */
  predicate Kept(c: Obj, term: string, filterType: string, filterActif: string)
  {
    && MatchesSearch(c, term)
    && (filterType == "all" || Get(c, "type_personne") == Str(filterType))
    && !(filterActif == "actif" && Get(c, "actif") != Num(1))
    && !(filterActif == "inactif" && Get(c, "actif") == Num(1))
  }

  function KeepFn(term: string, filterType: string, filterActif: string): Obj -> bool
  {
    c => Kept(c, term, filterType, filterActif)
  }

  /** `filteredContacts` */
  function Filtered(contacts: seq<Obj>, term: string, filterType: string, filterActif: string): seq<Obj>
  {
    Filter(contacts, KeepFn(term, filterType, filterActif))
  }

  /** The list shown keeps the contacts' order and only drops some of them; a contact is
      shown exactly when it passes the filter. */
  lemma FilteredIsSubsequence(contacts: seq<Obj>, term: string, filterType: string, filterActif: string)
    ensures IsSubsequence(Filtered(contacts, term, filterType, filterActif), contacts)
    ensures forall c :: c in Filtered(contacts, term, filterType, filterActif) <==> c in contacts && Kept(c, term, filterType, filterActif)
  {
    FilterIsSubsequence(contacts, KeepFn(term, filterType, filterActif));
    FilterMembers(contacts, KeepFn(term, filterType, filterActif));
  }

  /** The `actif` and `inactif` lists split the `all` list: each contact of the `all` list
      is in exactly one of them, and their lengths add up. */
  lemma {:induction false} ActifPartition(contacts: seq<Obj>, term: string, filterType: string)
    ensures |Filtered(contacts, term, filterType, "actif")| + |Filtered(contacts, term, filterType, "inactif")|
      == |Filtered(contacts, term, filterType, "all")|
    ensures forall c :: Kept(c, term, filterType, "all") <==>
      (Kept(c, term, filterType, "actif") || Kept(c, term, filterType, "inactif"))
    ensures forall c :: !(Kept(c, term, filterType, "actif") && Kept(c, term, filterType, "inactif"))
  {
    if contacts != [] {
      ActifPartition(contacts[1..], term, filterType);
    }
  }

  /** Searching is case-blind: the term's case does not change the list. */
  lemma SearchIgnoresCase(contacts: seq<Obj>, term: string, filterType: string, filterActif: string)
    ensures Filtered(contacts, term, filterType, filterActif) == Filtered(contacts, Lower(term), filterType, filterActif)
  {
    assert Lower(Lower(term)) == Lower(term);
    FilterAgrees(contacts, KeepFn(term, filterType, filterActif), KeepFn(Lower(term), filterType, filterActif));
  }

  /** Two tests that agree everywhere filter alike. */
  lemma {:induction false} FilterAgrees<T>(s: seq<T>, p: T -> bool, q: T -> bool)
    requires forall x :: p(x) == q(x)
    ensures Filter(s, p) == Filter(s, q)
  {
    if s != [] {
      FilterAgrees(s[1..], p, q);
    }
  }

  /** With an empty search box and no filter, every contact that has a `nom` is listed. */
  lemma {:induction false} EmptySearchListsAll(contacts: seq<Obj>)
    requires forall i :: 0 <= i < |contacts| ==> Get(contacts[i], "nom").Str?
    ensures Filtered(contacts, "", "all", "all") == contacts
  {
    if contacts != [] {
      var c := contacts[0];
      ContainsEmpty(Lower(Get(c, "nom").s));
      assert Lower("") == "";
      assert FieldIncludes(Get(c, SearchFields[0]), Lower(""));
      EmptySearchListsAll(contacts[1..]);
    }
  }

  // ------------------------------------------------------------- form

  /** The string fields of the form besides `type_personne` and `pays`. */
  const TextFields: seq<string> := ["nom", "prenom", "raison_sociale", "telephone", "telephone_secondaire",
    "email", "adresse", "ville", "code_postal", "siret", "tva_intracommunautaire", "forme_juridique", "notes"]

  /** The fields a person does not have: they are sent as null. */
  const CompanyFields: seq<string> := ["raison_sociale", "siret", "tva_intracommunautaire", "forme_juridique"]

  /** The initial (and reset) form state. */
  const InitialForm: Obj := map[
    "type_personne" := Str("physique"), "nom" := Str(""), "prenom" := Str(""), "raison_sociale" := Str(""),
    "telephone" := Str(""), "telephone_secondaire" := Str(""), "email" := Str(""), "adresse" := Str(""),
    "ville" := Str(""), "code_postal" := Str(""), "pays" := Str("France"), "siret" := Str(""),
    "tva_intracommunautaire" := Str(""), "forme_juridique" := Str(""), "actif" := Bool(true), "notes" := Str("")]

  /** The form `handleEdit` fills from a contact: `|| ''` on the text fields, `'physique'`
      and `'France'` as fallbacks, the checkbox ticked only for `actif === 1`. */
  function EditForm(c: Obj): Obj
  {
    map f | f in InitialForm ::
      if f == "type_personne" then Or(Get(c, f), Str("physique"))
      else if f == "pays" then Or(Get(c, f), Str("France"))
      else if f == "actif" then Bool(Get(c, "actif") == Num(1))
      else Or(Get(c, f), Str(""))
  }

  /** `dataToSend`: the form with `actif` as 1 or 0, and for a person the company fields
      as null. */
  function DataToSend(form: Obj): Obj
  {
    var base := form["actif" := Num(if Truthy(Get(form, "actif")) then 1 else 0)];
    if Get(form, "type_personne") == Str("physique") then
      base["raison_sociale" := Null]["siret" := Null]["tva_intracommunautaire" := Null]["forme_juridique" := Null]
    else base
  }

  /** The payload keeps the form's other fields, sends `actif` as 1 exactly when the box
      is ticked, and nulls the company fields exactly for a person. */
  lemma DataToSendSpec(form: Obj)
    ensures DataToSend(form).Keys == form.Keys + {"actif"} + (if Get(form, "type_personne") == Str("physique") then set f | f in CompanyFields else {})
    ensures DataToSend(form)["actif"] == Num(1) <==> Truthy(Get(form, "actif"))
    ensures DataToSend(form)["actif"] == Num(0) <==> !Truthy(Get(form, "actif"))
    ensures forall f :: f in CompanyFields && Get(form, "type_personne") == Str("physique") ==> DataToSend(form)[f] == Null
    ensures forall f :: f in form && f != "actif" && (f !in CompanyFields || Get(form, "type_personne") != Str("physique")) ==> DataToSend(form)[f] == form[f]
  {
  }

  /** Editing a contact and saving it unchanged sends back its state as 1 or 0 (a state
      other than 1 becomes 0) and, for a company whose fields are all set, every field as
      it was. */
  lemma EditThenSend(c: Obj)
    ensures DataToSend(EditForm(c))["actif"] == Num(if Get(c, "actif") == Num(1) then 1 else 0)
    ensures Get(c, "type_personne") == Str("morale") ==>
      forall f :: f in InitialForm && f != "actif" && Truthy(Get(c, f)) ==> DataToSend(EditForm(c))[f] == c[f]
  {
    assert "actif" in InitialForm && "type_personne" in InitialForm;
  }

  /** The text fields of the edit form are never missing, null or undefined. */
  lemma EditFormFilled(c: Obj)
    ensures EditForm(c).Keys == InitialForm.Keys
    ensures forall f :: f in EditForm(c) && f != "actif" ==> Truthy(EditForm(c)[f]) || EditForm(c)[f] == Str("")
  {
  }

  /** A form input's change event target. */
  datatype Target = Target(name: string, value: Value, kind: string, checked: bool)

  /** The new value `handleChange` stores: `checked` for a checkbox, else `value`. */
  function Input(t: Target): Value
  {
    if t.kind == "checkbox" then Bool(t.checked) else t.value
  }

  /** The page's React state that the form handlers write. */
  class Page {
    var formData: Obj
    var editingContact: Option<Obj>
    var showModal: bool
    var error: string

    constructor ()
      ensures formData == InitialForm && editingContact == None && !showModal && error == ""
    {
      formData, editingContact, showModal, error := InitialForm, None, false, "";
    }

    /** `handleEdit` */
    method HandleEdit(contact: Obj)
      modifies this
      ensures formData == EditForm(contact) && editingContact == Some(contact) && showModal
      ensures error == old(error)
    {
      editingContact := Some(contact);
      formData := EditForm(contact);
      showModal := true;
    }

    /** `handleChange`: only the named field changes. */
    method HandleChange(target: Target)
      modifies this
      ensures formData == old(formData)[target.name := Input(target)]
      ensures forall f :: f in old(formData) && f != target.name ==> f in formData && formData[f] == old(formData)[f]
      ensures editingContact == old(editingContact) && showModal == old(showModal) && error == old(error)
    {
      formData := formData[target.name := Input(target)];
    }

    /** `resetForm` */
    method ResetForm()
      modifies this
      ensures formData == InitialForm && editingContact == None && !showModal && error == ""
    {
      formData := InitialForm;
      editingContact := None;
      showModal := false;
      error := "";
    }
  }
}

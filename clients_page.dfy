/**
  frontend/src/pages/Clients.jsx: the clients list. The search filter is pure; the
  form handlers replace React state, modelled as the fields of `Page`.
 */
module ClientsPage {
  import opened Common

  /** The nine fields of the client form. */
  const Fields: seq<string> := ["nom", "prenom", "entreprise", "telephone", "email", "adresse", "ville", "code_postal", "notes"]

  /** The initial (and reset) form: every field ''. */
  const EmptyForm: Obj := map f | f in Fields :: Str("")

  /** The form `handleEdit` fills from a client: `client.f || ''` for each field. (The client
      page's prefill, frontend/src/pages/ClientDetail.jsx, builds the same object.) */
  function EditForm(client: Obj): Obj
  {
    map f | f in Fields :: Or(Get(client, f), Str(""))
  }

  /** The edit form has exactly the nine fields, copies every set field and turns every
      missing, null or empty one into ''. */
  lemma EditFormSpec(client: Obj)
    ensures EditForm(client).Keys == EmptyForm.Keys
    ensures forall f :: f in Fields && Truthy(Get(client, f)) ==> EditForm(client)[f] == client[f]
    ensures forall f :: f in Fields && !Truthy(Get(client, f)) ==> EditForm(client)[f] == Str("")
    ensures EditForm(map[]) == EmptyForm
  {
  }

  // ------------------------------------------------------------- search

  /** The fields the search box looks in. */
  const SearchFields: seq<string> := ["nom", "prenom", "entreprise"]

  /** The `filter` callback: the lower-cased term occurs in the lower-cased `nom`,
      `prenom` or `entreprise`. */
  predicate Kept(client: Obj, term: string)
  {
    exists i :: 0 <= i < |SearchFields| && FieldIncludes(Get(client, SearchFields[i]), Lower(term))
  }

  /** `filteredClients` */
  function Filtered(clients: seq<Obj>, term: string): seq<Obj>
  {
    Filter(clients, (c: Obj) => Kept(c, term))
  }

  /** The list keeps the clients' order; a client is listed exactly when it matches. */
  lemma FilteredSpec(clients: seq<Obj>, term: string)
    ensures IsSubsequence(Filtered(clients, term), clients)
    ensures forall c :: c in Filtered(clients, term) <==> c in clients && Kept(c, term)
  {
    FilterIsSubsequence(clients, (c: Obj) => Kept(c, term));
    FilterMembers(clients, (c: Obj) => Kept(c, term));
  }

  /** An empty search box lists every client having one of the three fields set to a text,
      and no other. */
  lemma EmptySearch(client: Obj)
    ensures Kept(client, "") <==> exists i :: 0 <= i < |SearchFields| && Get(client, SearchFields[i]).Str?
  {
    assert Lower("") == "";
    forall i | 0 <= i < |SearchFields| && Get(client, SearchFields[i]).Str?
      ensures FieldIncludes(Get(client, SearchFields[i]), "")
    {
      ContainsEmpty(Lower(Get(client, SearchFields[i]).s));
    }
  }

  /** A client whose `nom`, `prenom` and `entreprise` are all null is never listed. */
  lemma NullFieldsNeverListed(client: Obj, term: string)
    requires forall i :: 0 <= i < |SearchFields| ==> !Get(client, SearchFields[i]).Str?
    ensures !Kept(client, term)
  {
  }

  // ------------------------------------------------------------- page state

  /** The page's React state that the form handlers write. */
  class Page {
    var formData: Obj
    var editingClient: Option<Obj>
    var showModal: bool

    constructor ()
      ensures formData == EmptyForm && editingClient == None && !showModal
    {
      formData, editingClient, showModal := EmptyForm, None, false;
    }

    /** `handleEdit` */
    method HandleEdit(client: Obj)
      modifies this
      ensures formData == EditForm(client) && editingClient == Some(client) && showModal
    {
      editingClient := Some(client);
      formData := EditForm(client);
      showModal := true;
    }

    /** `resetForm`: every field '', no client being edited, the modal closed. */
    method ResetForm()
      modifies this
      ensures formData == EmptyForm && editingClient == None && !showModal
    {
      formData := EmptyForm;
      editingClient := None;
      showModal := false;
    }

    /** `handleChange`: only the named field changes. */
    method HandleChange(name: string, value: Value)
      modifies this
      ensures formData == old(formData)[name := value]
      ensures editingClient == old(editingClient) && showModal == old(showModal)
    {
      formData := formData[name := value];
    }
  }
}

/**
  frontend/src/pages/ClientDetail.jsx: one client's page. Loading fills the client,
  its job sites and the edit form; the form handler replaces React state, modelled
  as the fields of `Page`. The status badge and label are those of
  `ChantiersPage.Badge` and `ChantiersPage.Label`, which this page repeats.
 */
module ClientDetailPage {
  import opened Common
  import ClientsPage
  import ChantiersPage

  /** What `Promise.all` of the client and of its job sites yields, when both calls succeed. */
  datatype Loaded = Loaded(client: Obj, chantiers: seq<Obj>)

  /** The label and badge shown for each of the client's job sites. */
  function StatusColumn(chantiers: seq<Obj>): (r: seq<(Value, string)>)
    ensures |r| == |chantiers|
    ensures forall i :: 0 <= i < |chantiers| && ChantiersPage.Known(Get(chantiers[i], "statut")) ==>
      r[i].0 != Get(chantiers[i], "statut")
    ensures forall i :: 0 <= i < |chantiers| && !ChantiersPage.Known(Get(chantiers[i], "statut")) ==>
      r[i] == (Get(chantiers[i], "statut"), "badge-info")
  {
    seq(|chantiers|, i requires 0 <= i < |chantiers| =>
      (ChantiersPage.Label(Get(chantiers[i], "statut")), ChantiersPage.Badge(Get(chantiers[i], "statut"))))
  }

  /** The page's React state. */
  class Page {
    var client: Option<Obj>
    var chantiers: seq<Obj>
    var formData: Obj
    var navigatedToList: bool

    constructor ()
      ensures client == None && chantiers == [] && formData == ClientsPage.EmptyForm && !navigatedToList
    {
      client, chantiers, formData, navigatedToList := None, [], ClientsPage.EmptyForm, false;
    }

    /** `loadClientData`: on success the client, its job sites and the prefilled form (each
        field `|| ''`); on failure the page goes back to the list. */
    method LoadClientData(response: Option<Loaded>)
      modifies this
      ensures response.Some? ==>
        && client == Some(response.value.client) && chantiers == response.value.chantiers
        && formData == ClientsPage.EditForm(response.value.client) && navigatedToList == old(navigatedToList)
      ensures response.None? ==>
        client == old(client) && chantiers == old(chantiers) && formData == old(formData) && navigatedToList
    {
      if response.Some? {
        client := Some(response.value.client);
        chantiers := response.value.chantiers;
        formData := ClientsPage.EditForm(response.value.client);
      } else {
        navigatedToList := true;
      }
    }

    /** `handleChange`: only the named field changes. */
    method HandleChange(name: string, value: Value)
      modifies this
      ensures formData == old(formData)[name := value]
      ensures client == old(client) && chantiers == old(chantiers) && navigatedToList == old(navigatedToList)
    {
      formData := formData[name := value];
    }
  }

  /** After a successful load the form holds the nine fields, a set field as the client
      has it and a null or missing one as ''. */
  lemma PrefillSpec(c: Obj)
    ensures ClientsPage.EditForm(c).Keys == ClientsPage.EmptyForm.Keys
    ensures forall f :: f in ClientsPage.Fields ==>
      ClientsPage.EditForm(c)[f] == (if Get(c, f) == Null || Get(c, f) == Undefined then Str("") else
        if Truthy(Get(c, f)) then c[f] else Str(""))
  {
    ClientsPage.EditFormSpec(c);
  }
}

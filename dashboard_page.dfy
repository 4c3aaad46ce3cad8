/**
  frontend/src/pages/Dashboard.jsx: the dashboard. `loadDashboardData` computes the
  four counters and the recent list from the job sites and clients it receives, and
  writes them to React state, modelled as the fields of `Page`.
 */
module DashboardPage {
  import opened Common
  import ChantiersPage

  datatype Stats = Stats(totalChantiers: nat, chantiersEnCours: nat, chantiersTermines: nat, totalClients: nat)

  /** How many job sites have the status `statut`: `filter(c => c.statut === s).length`. */
  function CountStatus(chantiers: seq<Obj>, statut: string): nat
  {
    |Filter(chantiers, (c: Obj) => Get(c, "statut") == Str(statut))|
  }

  /** The counters `loadDashboardData` computes. */
  function StatsOf(chantiers: seq<Obj>, clients: seq<Obj>): Stats
  {
    Stats(|chantiers|, CountStatus(chantiers, "en_cours"), CountStatus(chantiers, "termine"), |clients|)
  }

  /** No job site is counted both in progress and finished: the two counters add up to at
      most the total. */
  lemma {:induction false} CountersBounded(chantiers: seq<Obj>, clients: seq<Obj>)
    ensures StatsOf(chantiers, clients).chantiersEnCours + StatsOf(chantiers, clients).chantiersTermines
      <= StatsOf(chantiers, clients).totalChantiers
  {
    if chantiers != [] {
      CountersBounded(chantiers[1..], clients);
    }
  }

  /** The counters equal the total exactly when every job site is in progress or finished. */
  lemma {:induction false} CountersCoverAll(chantiers: seq<Obj>)
    ensures CountStatus(chantiers, "en_cours") + CountStatus(chantiers, "termine") == |chantiers|
      <==> forall i :: 0 <= i < |chantiers| ==> Get(chantiers[i], "statut") in {Str("en_cours"), Str("termine")}
  {
    if chantiers != [] {
      CountersCoverAll(chantiers[1..]);
      CountersBounded(chantiers[1..], []);
      assert forall i :: 1 <= i < |chantiers| ==> chantiers[1..][i - 1] == chantiers[i];
    }
  }

  /** `chantiers.slice(0, 5)`: the first five job sites, in the order received. */
  function Recent(chantiers: seq<Obj>): seq<Obj>
  {
    Prefix(chantiers, 5)
  }

  lemma RecentSpec(chantiers: seq<Obj>)
    ensures |Recent(chantiers)| == if |chantiers| < 5 then |chantiers| else 5
    ensures forall i :: 0 <= i < |Recent(chantiers)| ==> Recent(chantiers)[i] == chantiers[i]
  {
  }

  /** The badge of a recent job site: `En cours` with `badge-info` for `en_cours`, and
      `Terminé` with `badge-success` for every other status. */
  function RecentBadge(statut: Value): (string, string)
  {
    if statut == Str("en_cours") then ("badge-info", "En cours") else ("badge-success", "Termin\U{E9}")
  }

  /** The recent list shows `Terminé` for planned and cancelled job sites too, where the
      job sites page shows their own labels. */
  lemma RecentBadgeDiffers()
    ensures RecentBadge(Str("planifie")).1 == "Termin\U{E9}" && ChantiersPage.Label(Str("planifie")) != Str("Termin\U{E9}")
    ensures RecentBadge(Str("annule")).1 == "Termin\U{E9}" && ChantiersPage.Label(Str("annule")) != Str("Termin\U{E9}")
    ensures forall s :: s == Str("en_cours") || s == Str("termine") ==> Str(RecentBadge(s).1) == ChantiersPage.Label(s)
  {
  }

  /** The page's React state. */
  class Page {
    var stats: Stats
    var recentChantiers: seq<Obj>
    var loading: bool

    constructor ()
      ensures stats == Stats(0, 0, 0, 0) && recentChantiers == [] && loading
    {
      stats, recentChantiers, loading := Stats(0, 0, 0, 0), [], true;
    }

    /** `loadDashboardData`: `response` is what `Promise.all` of the two lists yields, or
        `None` when a call fails; loading ends either way. */
    method LoadDashboardData(response: Option<(seq<Obj>, seq<Obj>)>)
      modifies this
      ensures response.Some? ==> stats == StatsOf(response.value.0, response.value.1) && recentChantiers == Recent(response.value.0)
      ensures response.None? ==> stats == old(stats) && recentChantiers == old(recentChantiers)
      ensures !loading
    {
      if response.Some? {
        var (chantiers, clients) := response.value;
        stats := StatsOf(chantiers, clients);
        recentChantiers := Recent(chantiers);
      }
      loading := false;
    }
  }
}

/** The incident list of the dashboard page (src/app/dashboard/page.tsx): the
    resolve reducer, the optimistic overlay of resolves still in flight, the
    load transitions and the choice between loading, list and empty views. */
module Dashboard {
  import opened Types
  import JsNumbers

  /** An incident as the incidents API serves it to the page. Timestamps stay
      strings here: the page only hands them to the range formatter. */
  datatype DashIncident = DashIncident(
    id: int, cameraId: int, kind: IncidentKind, tsStart: string, tsEnd: string,
    thumbnailUrl: string, resolved: bool, cameraName: string, cameraLocation: string)

  /** Number of incidents in the list carrying `id`. */
  function CountId(list: seq<DashIncident>, id: int): nat
  {
    if list == [] then 0 else (if list[0].id == id then 1 else 0) + CountId(list[1..], id)
  }

  /** The resolve reducer `state.filter((incident) => incident.id !== id)`,
      shared by the optimistic update and the confirmed update. */
  function WithoutId(list: seq<DashIncident>, id: int): (r: seq<DashIncident>)
    ensures |r| <= |list|
  {
    if list == [] then []
    else (if list[0].id == id then [] else [list[0]]) + WithoutId(list[1..], id)
  }

  /** Exactly the incidents with another id remain. */
  lemma {:induction false} WithoutIdMembers(list: seq<DashIncident>, id: int)
    ensures forall x :: x in WithoutId(list, id) <==> x in list && x.id != id
    decreases |list|
  {
    if list != [] {
      WithoutIdMembers(list[1..], id);
      assert list == [list[0]] + list[1..];
    }
  }

  /** The list shrinks by the number of incidents carrying the id. */
  lemma {:induction false} WithoutIdLength(list: seq<DashIncident>, id: int)
    ensures |WithoutId(list, id)| == |list| - CountId(list, id)
    decreases |list|
  {
    if list != [] {
      WithoutIdLength(list[1..], id);
    }
  }

  /** The filter works piecewise, so the incidents it keeps stay in their order. */
  lemma {:induction false} WithoutIdAppend(a: seq<DashIncident>, b: seq<DashIncident>, id: int)
    ensures WithoutId(a + b, id) == WithoutId(a, id) + WithoutId(b, id)
    decreases |a|
  {
    if a == [] {
      assert a + b == b;
    } else {
      assert (a + b)[1..] == a[1..] + b;
      WithoutIdAppend(a[1..], b, id);
    }
  }

  /** Resolving an id that is not in the list leaves the list as it is. */
  lemma {:induction false} WithoutAbsentId(list: seq<DashIncident>, id: int)
    requires forall x :: x in list ==> x.id != id
    ensures WithoutId(list, id) == list
    decreases |list|
  {
    if list != [] {
      assert list[0] in list;
      assert forall x :: x in list[1..] ==> x in list;
      WithoutAbsentId(list[1..], id);
    }
  }

  /** Resolving the same id twice leaves the same list as resolving it once. */
  lemma WithoutIdIdempotent(list: seq<DashIncident>, id: int)
    ensures WithoutId(WithoutId(list, id), id) == WithoutId(list, id)
  {
    WithoutIdMembers(list, id);
    WithoutAbsentId(WithoutId(list, id), id);
  }

  /** The filter on a list with a given first incident. */
  lemma WithoutIdCons(x: DashIncident, rest: seq<DashIncident>, id: int)
    ensures WithoutId([x] + rest, id) == (if x.id == id then [] else [x]) + WithoutId(rest, id)
  {
    assert ([x] + rest)[1..] == rest;
  }

  /** Two resolves give the same list in either order. */
  lemma {:induction false} WithoutIdCommutes(list: seq<DashIncident>, a: int, b: int)
    ensures WithoutId(WithoutId(list, a), b) == WithoutId(WithoutId(list, b), a)
    decreases |list|
  {
    if list != [] {
      var x, tail := list[0], list[1..];
      assert list == [x] + tail;
      WithoutIdCommutes(tail, a, b);
      var ta, tb := WithoutId(tail, a), WithoutId(tail, b);
      WithoutIdCons(x, tail, a);
      WithoutIdCons(x, tail, b);
      assert WithoutId(list, a) == if x.id == a then ta else [x] + ta;
      assert WithoutId(list, b) == if x.id == b then tb else [x] + tb;
      if x.id != a {
        WithoutIdCons(x, ta, b);
      }
      if x.id != b {
        WithoutIdCons(x, tb, a);
      }
    }
  }

  /** Ids are unique, as the table's primary key makes them. */
  predicate UniqueIds(list: seq<DashIncident>)
  {
    forall i, j :: 0 <= i < j < |list| ==> list[i].id != list[j].id
  }

  /** With unique ids, a present id occurs exactly once. */
  lemma {:induction false} UniqueIdCountsOnce(list: seq<DashIncident>, id: int)
    requires UniqueIds(list)
    ensures CountId(list, id) == (if exists x :: x in list && x.id == id then 1 else 0)
    decreases |list|
  {
    if list != [] {
      var tail := list[1..];
      assert UniqueIds(tail) by {
        forall i, j | 0 <= i < j < |tail| ensures tail[i].id != tail[j].id {
          assert tail[i] == list[i + 1] && tail[j] == list[j + 1];
        }
      }
      UniqueIdCountsOnce(tail, id);
      if list[0].id == id {
        forall x | x in tail ensures x.id != id {
          var j :| 0 <= j < |tail| && tail[j] == x;
          assert list[j + 1] == x;
        }
      } else {
        assert (exists x :: x in list && x.id == id) <==> (exists x :: x in tail && x.id == id) by {
          if exists x :: x in list && x.id == id {
            var x :| x in list && x.id == id;
            assert x != list[0];
            var j :| 0 <= j < |list| && list[j] == x;
            assert tail[j - 1] == x;
          }
        }
      }
    }
  }

  /** With unique ids and `id` present, a resolve moves exactly one incident from
      the list to the resolved count: list length plus count is conserved. */
  lemma ResolveConservesTotal(list: seq<DashIncident>, resolvedCount: int, id: int)
    requires UniqueIds(list) && exists x :: x in list && x.id == id
    ensures |WithoutId(list, id)| + (resolvedCount + 1) == |list| + resolvedCount
  {
    UniqueIdCountsOnce(list, id);
    WithoutIdLength(list, id);
  }

  /** The optimistic list: the confirmed list with every resolve still in
      flight applied in turn, as `useOptimistic` replays its actions. */
  function ApplyResolves(list: seq<DashIncident>, pending: seq<int>): seq<DashIncident>
    decreases |pending|
  {
    if pending == [] then list else ApplyResolves(WithoutId(list, pending[0]), pending[1..])
  }

  /** The optimistic list holds exactly the confirmed incidents whose id is not in flight. */
  lemma {:induction false} ApplyResolvesMembers(list: seq<DashIncident>, pending: seq<int>)
    ensures forall x :: x in ApplyResolves(list, pending) <==> x in list && x.id !in pending
    decreases |pending|
  {
    if pending != [] {
      WithoutIdMembers(list, pending[0]);
      ApplyResolvesMembers(WithoutId(list, pending[0]), pending[1..]);
      assert pending == [pending[0]] + pending[1..];
    }
  }

  /** Resolve k of those in flight may be applied first: the others then give the same list. */
  lemma {:induction false} ApplyResolvesPick(list: seq<DashIncident>, pending: seq<int>, k: nat)
    requires k < |pending|
    ensures ApplyResolves(list, pending) == ApplyResolves(WithoutId(list, pending[k]), pending[..k] + pending[k + 1..])
    decreases k
  {
    if k == 0 {
      assert pending[..0] + pending[1..] == pending[1..];
    } else {
      var rest := pending[1..];
      ApplyResolvesPick(WithoutId(list, pending[0]), rest, k - 1);
      assert rest[k - 1] == pending[k];
      WithoutIdCommutes(list, pending[0], pending[k]);
      var others := pending[..k] + pending[k + 1..];
      assert others[0] == pending[0];
      assert others[1..] == rest[..k - 1] + rest[k..];
    }
  }

  /** What the list area shows. */
  datatype View = Loading | IncidentList(items: seq<DashIncident>) | NoIncidents

  /** "Loading..." while loading, then the list if it has entries, else "No incidents found.". */
  function ChooseView(loading: bool, shown: seq<DashIncident>): (v: View)
    ensures v.Loading? <==> loading
    ensures v.IncidentList? <==> !loading && |shown| > 0
    ensures v.NoIncidents? <==> !loading && shown == []
    ensures v.IncidentList? ==> v.items == shown
  {
    if loading then Loading else if |shown| > 0 then IncidentList(shown) else NoIncidents
  }

  const HeadingSuffix: string := " Unresolved Incidents"

  /** The heading "<n> Unresolved Incidents". */
  function Heading(shown: seq<DashIncident>): string
  {
    JsNumbers.NatToString(|shown|) + HeadingSuffix
  }

  /** The heading is a number followed by the fixed suffix, and the number
      reads back as the count of incidents shown. */
  lemma HeadingCountsShown(shown: seq<DashIncident>)
    ensures var h := Heading(shown);
      |h| > |HeadingSuffix| && h[|h| - |HeadingSuffix|..] == HeadingSuffix
      && JsNumbers.ReadsAs(h[..|h| - |HeadingSuffix|], |shown|)
  {
    var n := JsNumbers.NatToString(|shown|);
    JsNumbers.NatToStringReadsBack(|shown|);
    var h := Heading(shown);
    assert h[..|h| - |HeadingSuffix|] == n;
    assert h[|h| - |HeadingSuffix|..] == HeadingSuffix;
  }

  /** The page's state: the confirmed list, resolved count and loading flag,
      and the ids of resolves whose transition has not finished. */
  class DashboardPage {
    var incidents: seq<DashIncident>
    var resolvedCount: int
    var loading: bool
    var pending: seq<int>

    /** `optimisticIncidents`. */
    function OptimisticIncidents(): seq<DashIncident>
      reads this
    {
      ApplyResolves(incidents, pending)
    }

    /** `optimisticResolvedCount`: each pending resolve adds 1. */
    function OptimisticResolvedCount(): int
      reads this
    {
      resolvedCount + |pending|
    }

    function CurrentView(): View
      reads this
    {
      ChooseView(loading, OptimisticIncidents())
    }

    /** The heading above the list: it counts the optimistic list, so a
        resolve in flight already lowers the number. */
    function HeadingText(): (h: string)
      reads this
      ensures |h| > |HeadingSuffix| && h[|h| - |HeadingSuffix|..] == HeadingSuffix
      ensures JsNumbers.ReadsAs(h[..|h| - |HeadingSuffix|], |OptimisticIncidents()|)
    {
      HeadingCountsShown(OptimisticIncidents());
      Heading(OptimisticIncidents())
    }

    constructor ()
      ensures incidents == [] && resolvedCount == 0 && loading && pending == []
      ensures CurrentView() == Loading
    {
      incidents := [];
      resolvedCount := 0;
      loading := true;
      pending := [];
    }

    /** The mount-time fetch settled: `fetched` is its data, or None if it threw. */
    method LoadIncidents(fetched: Option<seq<DashIncident>>)
      modifies this
      ensures !loading
      ensures incidents == (if fetched.Some? then fetched.value else old(incidents))
      ensures resolvedCount == old(resolvedCount) && pending == old(pending)
    {
      if fetched.Some? {
        incidents := fetched.value;
      }
      loading := false;
    }

    /** Clicking Resolve: the optimistic list drops `id` and the optimistic count rises by 1. */
    method BeginResolve(id: int)
      modifies this
      ensures pending == old(pending) + [id]
      ensures incidents == old(incidents) && resolvedCount == old(resolvedCount) && loading == old(loading)
      ensures OptimisticIncidents() == WithoutId(old(OptimisticIncidents()), id)
      ensures OptimisticResolvedCount() == old(OptimisticResolvedCount()) + 1
    {
      ApplyResolvesSnoc(incidents, pending, id);
      pending := pending + [id];
    }

    /** Resolve number k in flight settles. On success the confirmed list drops its
        id and the count rises by 1, so what is shown does not change; on failure
        the confirmed state stays and the optimistic change is rolled back. */
    method CompleteResolve(k: nat, serverOk: bool)
      requires k < |pending|
      modifies this
      ensures pending == old(pending[..k] + pending[k + 1..])
      ensures loading == old(loading)
      ensures serverOk ==> incidents == WithoutId(old(incidents), old(pending[k])) && resolvedCount == old(resolvedCount) + 1
      ensures serverOk ==> (OptimisticIncidents() == old(OptimisticIncidents())
        && OptimisticResolvedCount() == old(OptimisticResolvedCount()))
      ensures !serverOk ==> incidents == old(incidents) && resolvedCount == old(resolvedCount)
    {
      var id := pending[k];
      ApplyResolvesPick(incidents, pending, k);
      if serverOk {
        incidents := WithoutId(incidents, id);
        resolvedCount := resolvedCount + 1;
      }
      pending := pending[..k] + pending[k + 1..];
    }
  }

  /** A new resolve in flight is applied after those already in flight. */
  lemma {:induction false} ApplyResolvesSnoc(list: seq<DashIncident>, pending: seq<int>, id: int)
    ensures ApplyResolves(list, pending + [id]) == WithoutId(ApplyResolves(list, pending), id)
    decreases |pending|
  {
    if pending == [] {
      assert ([] + [id])[1..] == [];
    } else {
      assert (pending + [id])[1..] == pending[1..] + [id];
      ApplyResolvesSnoc(WithoutId(list, pending[0]), pending[1..], id);
    }
  }
}

// The index of visited and unvisited sites that the neighbourhoods share.

module Search {
  import opened Instances
  import opened Tours
  import opened Solutions

  class SearchState {
    const sol: Solution
    const visited: array<bool>
    var unvisited: seq<nat>

    // Each site is either in the tour, once, and flagged, or in the unvisited list, once.
    ghost predicate Synced()
      reads this, visited, sol
    {
      && visited.Length == |sol.inst.points|
      && Partition(sol.inst, sol.Tour(), unvisited)
      && FlagsTrue(sol.inst, visited[..], AllSites(sol.inst, sol.Tour()))
    }

    constructor (sol: Solution)
      requires sol.inst.Valid() && sol.Typed() && NoRepeat(sol.inst, sol.Tour())
      ensures this.sol == sol && fresh(visited) && Synced()
    {
      this.sol := sol;
      visited := new bool[|sol.inst.points|](_ => false);
      unvisited := [];
      new;
      MarkTour();
      assert FlagsTrue(sol.inst, visited[..], AllSites(sol.inst, sol.Tour()));
      CollectUnvisited();
    }

    method MarkTour()
      requires sol.inst.Valid() && sol.Typed()
      requires visited.Length == |sol.inst.points| && forall u :: 0 <= u < visited.Length ==> !visited[u]
      modifies visited
      ensures FlagsTrue(sol.inst, visited[..], AllSites(sol.inst, sol.Tour()))
    {
      hide SitesOf;
      var d := 0;
      while d < |sol.days|
        invariant 0 <= d <= |sol.days|
        invariant FlagsTrue(sol.inst, visited[..], SitesBefore(sol.inst, sol.Tour(), d))
      {
        var steps := sol.days[d].steps;
        ghost var pts := Ids(steps);
        ghost var before := SitesBefore(sol.inst, sol.Tour(), d);
        NoSites(sol.inst, pts);
        assert before + SitesOf(sol.inst, pts[..0]) == before;
        var k := 0;
        while k < |steps|
          invariant 0 <= k <= |steps|
          invariant FlagsTrue(sol.inst, visited[..], before + SitesOf(sol.inst, pts[..k]))
        {
          SitesOfSnoc(sol.inst, pts, k);
          ghost var flags := visited[..];
          if sol.inst.points[steps[k].pointId].kind.Site? {
            visited[steps[k].pointId] := true;
            assert visited[..] == flags[pts[k] := true];
          }
          k := k + 1;
        }
        assert pts[..k] == sol.Tour()[d];
        d := d + 1;
      }
    }

    method CollectUnvisited()
      requires sol.inst.Valid() && NoRepeat(sol.inst, sol.Tour())
      requires visited.Length == |sol.inst.points|
      requires FlagsTrue(sol.inst, visited[..], AllSites(sol.inst, sol.Tour()))
      requires unvisited == []
      modifies this`unvisited
      ensures Partition(sol.inst, sol.Tour(), unvisited)
    {
      hide AllSites, NoRepeat, Unseen;
      var ids := sol.inst.siteIds;
      ghost var all := AllSites(sol.inst, sol.Tour());
      NothingUnseen(ids, all);
      var i := 0;
      while i < |ids|
        invariant 0 <= i <= |ids|
        invariant multiset(unvisited) == Unseen(ids, all, i)
      {
        assert ids[i] in ids;
        CollectStep(ids, all, i);
        if !visited[ids[i]] {
          unvisited := unvisited + [ids[i]];
        }
        i := i + 1;
      }
      CollectDone(sol.inst, sol.Tour(), unvisited);
    }

    method MarkVisited(siteID: nat)
      requires siteID < visited.Length
      modifies this`unvisited, visited
      ensures multiset(unvisited) == old(multiset(unvisited)) - multiset{siteID}
      ensures visited[..] == old(visited[..])[siteID := true]
    {
      visited[siteID] := true;
      assert visited[..] == old(visited[..])[siteID := true];
      unvisited := SwapRemove(unvisited, siteID);
    }

    method MarkUnvisited(siteID: nat)
      requires siteID < visited.Length
      modifies this`unvisited, visited
      ensures unvisited == old(unvisited) + [siteID]
      ensures visited[..] == old(visited[..])[siteID := false]
    {
      visited[siteID] := false;
      unvisited := unvisited + [siteID];
    }
  }

  // The first occurrence of x is overwritten by the last element, which is cut off.
  method SwapRemove(s: seq<nat>, x: nat) returns (r: seq<nat>)
    ensures multiset(r) == multiset(s) - multiset{x}
  {
    var i := 0;
    while i < |s|
      invariant 0 <= i <= |s|
      invariant forall k :: 0 <= k < i ==> s[k] != x
    {
      if s[i] == x {
        RemoveBySwap(s, i);
        return s[i := s[|s| - 1]][..|s| - 1];
      }
      i := i + 1;
    }
    RemoveAbsent(s, x);
    return s;
  }

  ghost predicate FlagsTrue(inst: Instance, flags: seq<bool>, sites: multiset<nat>) {
    && |flags| == |inst.points|
    && forall u :: 0 <= u < |flags| ==> (flags[u] <==> u in sites)
  }

  lemma FlagsAfterInsert(inst: Instance, flags: seq<bool>, sites: multiset<nat>, u: nat)
    requires FlagsTrue(inst, flags, sites) && u < |flags|
    ensures FlagsTrue(inst, flags[u := true], sites + multiset{u})
  {
  }

  lemma NoSites(inst: Instance, pts: seq<nat>)
    ensures SitesOf(inst, pts[..0]) == multiset{}
  {
  }

  lemma SitesOfSnoc(inst: Instance, pts: seq<nat>, k: nat)
    requires k < |pts|
    ensures SitesOf(inst, pts[..k + 1])
         == SitesOf(inst, pts[..k]) + (if inst.IsSite(pts[k]) then multiset{pts[k]} else multiset{})
  {
    assert pts[..k + 1][..k] == pts[..k];
  }

  ghost function Unseen(ids: seq<nat>, all: multiset<nat>, i: nat): multiset<nat>
    requires i <= |ids|
  {
    multiset(ids[..i]) - all
  }

  lemma NothingUnseen(ids: seq<nat>, all: multiset<nat>)
    ensures Unseen(ids, all, 0) == multiset{}
  {
  }

  lemma CollectStep(ids: seq<nat>, all: multiset<nat>, i: nat)
    requires i < |ids| && forall j, k :: 0 <= j < k < |ids| ==> ids[j] != ids[k]
    ensures Unseen(ids, all, i + 1) == Unseen(ids, all, i) + (if ids[i] in all then multiset{} else multiset{ids[i]})
  {
    assert ids[..i + 1] == ids[..i] + [ids[i]];
    DistinctCount(ids[..i], ids[i]);
  }

  lemma CollectDone(inst: Instance, tour: Tour, unvisited: seq<nat>)
    requires inst.Valid() && NoRepeat(inst, tour)
    requires multiset(unvisited) == Unseen(inst.siteIds, AllSites(inst, tour), |inst.siteIds|)
    ensures Partition(inst, tour, unvisited)
  {
    assert inst.siteIds[..|inst.siteIds|] == inst.siteIds;
    forall u: nat
      ensures AllSites(inst, tour)[u] <= multiset(inst.siteIds)[u]
    {
      DistinctCount(inst.siteIds, u);
      if u in AllSites(inst, tour) {
        SitesBeforeAreSites(inst, tour, |tour|, u);
      }
    }
  }

  lemma RemoveAbsent(s: seq<nat>, x: nat)
    requires forall k :: 0 <= k < |s| ==> s[k] != x
    ensures multiset(s) == multiset(s) - multiset{x}
  {
    assert x !in s;
    assert x !in multiset(s);
  }

  lemma Overwritten(s: seq<nat>, i: nat, x: nat)
    requires i < |s|
    ensures multiset(s[i := x]) + multiset{s[i]} == multiset(s) + multiset{x}
  {
    var a, b := s[..i], s[i + 1..];
    assert s == a + [s[i]] + b && s[i := x] == a + [x] + b;
  }

  lemma CancelOne(m: multiset<nat>, s: multiset<nat>, out: nat, last: nat)
    requires m + multiset{last} + multiset{out} == s + multiset{last} && out in s
    ensures m == s - multiset{out}
  {
    forall u: nat
      ensures m[u] == (s - multiset{out})[u]
    {
      assert (m + multiset{last} + multiset{out})[u] == (s + multiset{last})[u];
    }
  }

  // Overwriting an element with the last one and dropping the last removes that element.
  lemma RemoveBySwap(s: seq<nat>, i: nat)
    requires i < |s|
    ensures multiset(s[i := s[|s| - 1]][..|s| - 1]) == multiset(s) - multiset{s[i]}
  {
    var n := |s| - 1;
    var t := s[i := s[n]];
    assert t == t[..n] + [s[n]];
    assert multiset(t) == multiset(t[..n]) + multiset{s[n]};
    Overwritten(s, i, s[n]);
    CancelOne(multiset(t[..n]), multiset(s), s[i], s[n]);
  }
}

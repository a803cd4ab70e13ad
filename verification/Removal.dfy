// Removing chosen stops from a day by deleting them one at a time in descending
// order of index, so that no deletion shifts a stop still to be deleted.

module Removal {
  import opened Instances
  import opened Schedules
  import opened Tours
  import opened Moves

  ghost predicate Descending(idxs: seq<nat>) {
    forall i, j :: 0 <= i < j < |idxs| ==> idxs[i] > idxs[j]
  }

  ghost predicate Inner<T>(s: seq<T>, idxs: seq<nat>) {
    forall i :: 0 <= i < |idxs| ==> 0 < idxs[i] < |s| - 1
  }

  // The code's deletions: each index is deleted from what the previous ones left.
  ghost function DeleteAll<T>(s: seq<T>, idxs: seq<nat>): (r: seq<T>)
    requires Descending(idxs) && Inner(s, idxs)
    ensures |r| == |s| - |idxs|
    ensures |idxs| > 0 ==> idxs[|idxs| - 1] < |r| && r[..idxs[|idxs| - 1]] == s[..idxs[|idxs| - 1]]
    ensures |idxs| == 0 ==> r == s
  {
    if idxs == [] then s
    else
      var n := |idxs| - 1;
      var left := DeleteAll(s, idxs[..n]);
      assert n > 0 ==> idxs[n] < idxs[n - 1] && left[..idxs[n]] == left[..idxs[n - 1]][..idxs[n]];
      DeleteAt(left, idxs[n])
  }

  // What is meant: the stops at the chosen positions disappear, all others stay in order.
  ghost function Drop<T>(s: seq<T>, chosen: set<nat>, n: nat): (r: seq<T>)
    requires n <= |s|
    ensures |r| <= n
  {
    if n == 0 then [] else Drop(s, chosen, n - 1) + (if n - 1 in chosen then [] else [s[n - 1]])
  }

  lemma {:induction false} DropNothing<T>(s: seq<T>, chosen: set<nat>, n: nat)
    requires n <= |s| && forall i :: i in chosen ==> i >= n
    ensures Drop(s, chosen, n) == s[..n]
  {
    if n > 0 {
      DropNothing(s, chosen, n - 1);
    }
  }

  // One more, lower, position.
  lemma {:induction false} DropLower<T>(s: seq<T>, chosen: set<nat>, i: nat, n: nat)
    requires i < n <= |s| && forall k :: k in chosen ==> k > i
    ensures i < |Drop(s, chosen, n)|
    ensures Drop(s, chosen + {i}, n) == DeleteAt(Drop(s, chosen, n), i)
  {
    if n == i + 1 {
      DropNothing(s, chosen, i);
      DropNothing(s, chosen + {i}, i);
    } else {
      DropLower(s, chosen, i, n - 1);
    }
  }

  lemma {:induction false} DeletesExactly<T>(s: seq<T>, idxs: seq<nat>, chosen: set<nat>)
    requires Descending(idxs) && Inner(s, idxs)
    requires forall i: nat :: i in chosen <==> i in idxs
    ensures DeleteAll(s, idxs) == Drop(s, chosen, |s|)
  {
    if idxs == [] {
      DropNothing(s, chosen, |s|);
    } else {
      var n := |idxs| - 1;
      assert idxs == idxs[..n] + [idxs[n]];
      var before := chosen - {idxs[n]};
      forall i: nat
        ensures i in before <==> i in idxs[..n]
      {
      }
      DeletesExactly(s, idxs[..n], before);
      DropLower(s, before, idxs[n], |s|);
      assert before + {idxs[n]} == chosen;
    }
  }

  // ----- Deleting sites keeps the shape and the feasibility of a day -----

  lemma {:induction false} ThinnedShape(inst: Instance, pts: seq<nat>, idxs: seq<nat>)
    requires DayShape(inst, pts) && Descending(idxs) && Inner(pts, idxs)
    ensures DayShape(inst, DeleteAll(pts, idxs))
    ensures First(DeleteAll(pts, idxs)) == First(pts) && Last(DeleteAll(pts, idxs)) == Last(pts)
  {
    if idxs != [] {
      var n := |idxs| - 1;
      ThinnedShape(inst, pts, idxs[..n]);
      StillInner(pts, idxs);
      DeleteShape(inst, DeleteAll(pts, idxs[..n]), idxs[n]);
    }
  }

  lemma StillInner<T>(s: seq<T>, idxs: seq<nat>)
    requires Descending(idxs) && Inner(s, idxs) && idxs != []
    ensures var n := |idxs| - 1; 0 < idxs[n] < |DeleteAll(s, idxs[..n])| - 1
  {
    var n := |idxs| - 1;
    DescendingRoom(idxs, n);
  }

  lemma {:induction false} DescendingRoom(idxs: seq<nat>, n: nat)
    requires Descending(idxs) && n < |idxs|
    ensures idxs[0] >= idxs[n] + n
  {
    if n > 0 {
      DescendingRoom(idxs, n - 1);
    }
  }

  lemma DeleteNext<T>(s: seq<T>, idxs: seq<nat>, k: nat)
    requires Descending(idxs) && Inner(s, idxs) && k < |idxs|
    ensures Descending(idxs[..k]) && Inner(s, idxs[..k]) && Descending(idxs[..k + 1]) && Inner(s, idxs[..k + 1])
    ensures idxs[k] < |DeleteAll(s, idxs[..k])|
    ensures DeleteAll(s, idxs[..k + 1]) == DeleteAt(DeleteAll(s, idxs[..k]), idxs[k])
  {
    assert idxs[..k + 1][..k] == idxs[..k];
    StillInner(s, idxs[..k + 1]);
  }

  lemma {:induction false} ThinnedFeasible(inst: Instance, day: nat, pts: seq<nat>, idxs: seq<nat>)
    requires inst.Valid() && DayShape(inst, pts) && Descending(idxs) && Inner(pts, idxs)
    requires Feasible(inst, day, pts)
    ensures Feasible(inst, day, DeleteAll(pts, idxs))
    ensures Finish(inst, DeleteAll(pts, idxs)) <= Finish(inst, pts)
  {
    if idxs != [] {
      var n := |idxs| - 1;
      ThinnedFeasible(inst, day, pts, idxs[..n]);
      StillInner(pts, idxs);
      ThinnedShape(inst, pts, idxs[..n]);
      ShapePoints(inst, DeleteAll(pts, idxs[..n]));
      DeleteFeasible(inst, day, DeleteAll(pts, idxs[..n]), idxs[n]);
    }
  }

  lemma {:induction false} ThinnedSites(inst: Instance, pts: seq<nat>, idxs: seq<nat>)
    requires DayShape(inst, pts) && Descending(idxs) && Inner(pts, idxs)
    ensures SitesOf(inst, DeleteAll(pts, idxs)) <= SitesOf(inst, pts)
  {
    if idxs != [] {
      var n := |idxs| - 1;
      ThinnedSites(inst, pts, idxs[..n]);
      ThinnedShape(inst, pts, idxs[..n]);
      StillInner(pts, idxs);
      SitesOfDelete(inst, DeleteAll(pts, idxs[..n]), idxs[n]);
    }
  }

  // ----- Sorting the indices, largest first -----

  ghost predicate Distinct(s: seq<nat>) {
    forall i, j :: 0 <= i < j < |s| ==> s[i] != s[j]
  }

  // The first n positions hold the largest values, in order.
  ghost predicate Sorted(s: seq<nat>, n: nat) {
    forall k, m :: 0 <= k < n && k < m < |s| ==> s[k] > s[m]
  }

  // Position i holds the largest of positions i up to j.
  ghost predicate Leads(s: seq<nat>, i: nat, j: nat) {
    forall m :: i < m < j && m < |s| ==> i < |s| && s[i] > s[m]
  }

  function Exchanged(s: seq<nat>, i: nat, j: nat): seq<nat>
    requires i < j < |s|
  {
    s[i := s[j]][j := s[i]]
  }

  lemma ExchangeKeeps(s: seq<nat>, i: nat, j: nat)
    requires i < j < |s| && Distinct(s) && Sorted(s, i) && Leads(s, i, j) && s[j] > s[i]
    ensures multiset(Exchanged(s, i, j)) == multiset(s)
    ensures Distinct(Exchanged(s, i, j)) && Sorted(Exchanged(s, i, j), i) && Leads(Exchanged(s, i, j), i, j + 1)
  {
  }

  lemma LeadsNext(s: seq<nat>, i: nat, j: nat)
    requires i < j < |s| && Distinct(s) && Leads(s, i, j) && s[j] <= s[i]
    ensures Leads(s, i, j + 1)
  {
  }

  lemma LeadsAll(s: seq<nat>, i: nat)
    requires i < |s| && Sorted(s, i) && Leads(s, i, |s|)
    ensures Sorted(s, i + 1)
  {
  }

  lemma SortedAll(s: seq<nat>)
    ensures Sorted(s, |s|) <==> Descending(s)
    ensures Sorted(s, 0)
  {
  }

  method SortDescending(idxs: array<nat>)
    requires Distinct(idxs[..])
    modifies idxs
    ensures multiset(idxs[..]) == old(multiset(idxs[..]))
    ensures Descending(idxs[..])
  {
    hide Distinct, Sorted, Leads;
    SortedAll(idxs[..]);
    var i := 0;
    while i < idxs.Length
      invariant 0 <= i <= idxs.Length
      invariant multiset(idxs[..]) == old(multiset(idxs[..]))
      invariant Distinct(idxs[..]) && Sorted(idxs[..], i)
    {
      LeadsSelf(idxs[..], i);
      var j := i + 1;
      while j < idxs.Length
        invariant i < j <= idxs.Length
        invariant multiset(idxs[..]) == old(multiset(idxs[..]))
        invariant Distinct(idxs[..]) && Sorted(idxs[..], i) && Leads(idxs[..], i, j)
      {
        ghost var s := idxs[..];
        if idxs[j] > idxs[i] {
          ExchangeKeeps(s, i, j);
          idxs[i], idxs[j] := idxs[j], idxs[i];
          assert idxs[..] == Exchanged(s, i, j);
        } else {
          LeadsNext(s, i, j);
        }
        j := j + 1;
      }
      LeadsAll(idxs[..], i);
      i := i + 1;
    }
    SortedAll(idxs[..]);
  }

  lemma LeadsSelf(s: seq<nat>, i: nat)
    ensures Leads(s, i, i + 1)
  {
  }
}

// Steps of a day as the code stores them: a slice over an array, from which sites are
// deleted and in which hotels are overwritten in place. Shows that a clone shares nothing
// with its original, so that shaking the clone leaves the best known solution as it was.

module StepSlices {
  import opened Instances
  import opened Removal
  import opened Schedules
  import opened Solutions
  import opened Wrappers

  class Slice {
    const cells: array<Step>
    var len: nat

    ghost predicate Valid()
      reads this
    {
      len <= cells.Length
    }

    ghost function Contents(): seq<Step>
      requires Valid()
      reads this, cells
    {
      cells[..len]
    }

    constructor Copy(from: Slice)
      requires from.Valid()
      ensures Valid() && fresh(cells) && Contents() == from.Contents()
    {
      var n := from.len;
      cells, len := new Step[n], n;
      new;
      forall i | 0 <= i < n {
        cells[i] := from.cells[i];
      }
      assert cells[..len] == from.cells[..from.len];
    }

    constructor Of(steps: seq<Step>)
      ensures Valid() && fresh(cells) && Contents() == steps
    {
      cells, len := new Step[|steps|], |steps|;
      new;
      forall i | 0 <= i < |steps| {
        cells[i] := steps[i];
      }
      assert cells[..len] == steps;
    }

    // A copy of the slice header only.
    constructor Sharing(from: Slice)
      requires from.Valid()
      ensures Valid() && cells == from.cells && len == from.len
    {
      cells, len := from.cells, from.len;
    }

    // append(steps[:i], steps[i+1:]...) moves the tail within the same array and leaves
    // the last cell behind.
    method Delete(i: nat)
      requires Valid() && i < len
      modifies this`len, cells
      ensures Valid() && Contents() == DeleteAt(old(Contents()), i)
      ensures forall k :: len <= k < cells.Length ==> cells[k] == old(cells[k])
    {
      forall k | i <= k < len - 1 {
        cells[k] := cells[k + 1];
      }
      len := len - 1;
      assert forall k :: 0 <= k < len ==> Contents()[k] == DeleteAt(old(Contents()), i)[k];
    }

    // A new slice of the hotels.
    method Cleared(inst: Instance) returns (day: Slice)
      requires Valid()
      ensures fresh(day) && fresh(day.cells) && day.Valid() && day.Contents() == HotelSteps(inst, Contents())
    {
      var newSteps: seq<Step> := [];
      var k := 0;
      while k < len
        invariant 0 <= k <= len && newSteps == HotelSteps(inst, Contents()[..k])
      {
        assert Contents()[..k + 1][..k] == Contents()[..k];
        if inst.IsHotel(cells[k].pointId) {
          newSteps := newSteps + [cells[k]];
        }
        k := k + 1;
      }
      assert Contents()[..k] == Contents();
      day := new Slice.Of(newSteps);
    }

    // steps[i].PointID = h
    method SetPoint(i: nat, h: nat)
      requires Valid() && i < len
      modifies cells
      ensures Contents() == old(Contents())[i := old(Contents())[i].(pointId := h)]
    {
      cells[i] := cells[i].(pointId := h);
    }

    // Deleting the chosen positions one by one, largest first.
    method DeleteEach(idxs: seq<nat>)
      requires Valid() && Descending(idxs) && Inner(Contents(), idxs)
      modifies this`len, cells
      ensures Valid() && Contents() == DeleteAll(old(Contents()), idxs)
    {
      var k := 0;
      assert idxs[..0] == [];
      while k < |idxs|
        invariant Valid() && 0 <= k <= |idxs|
        invariant Contents() == DeleteAll(old(Contents()), idxs[..k])
      {
        DeleteNext(old(Contents()), idxs, k);
        Delete(idxs[k]);
        k := k + 1;
      }
      assert idxs[..k] == idxs;
    }
  }

  // The hotels among the steps, in order.
  function HotelSteps(inst: Instance, steps: seq<Step>): seq<Step> {
    if steps == [] then []
    else
      var last := steps[|steps| - 1];
      HotelSteps(inst, steps[..|steps| - 1]) + (if inst.IsHotel(last.pointId) then [last] else [])
  }

  // A joint is a day j and a hotel h: day j now ends, and day j + 1 starts, at h.
  function WithJoint(steps: seq<Step>, d: nat, joint: Option<(nat, nat)>): seq<Step>
    requires steps != []
  {
    match joint
    case None => steps
    case Some((j, h)) =>
      var n := |steps| - 1;
      if d == j then steps[n := steps[n].(pointId := h)]
      else if d == j + 1 then steps[0 := steps[0].(pointId := h)]
      else steps
  }

  // What a shake makes of one day: sites deleted, perhaps a hotel changed, perhaps emptied.
  ghost function Shaken(inst: Instance, steps: seq<Step>, d: nat, idxs: seq<nat>, joint: Option<(nat, nat)>,
                        clear: bool)
    : seq<Step>
    requires Descending(idxs) && Inner(steps, idxs) && DeleteAll(steps, idxs) != []
  {
    var left := WithJoint(DeleteAll(steps, idxs), d, joint);
    if clear then HotelSteps(inst, left) else left
  }

  lemma EndsRemain(s: seq<Step>, idxs: seq<nat>)
    requires Descending(idxs) && Inner(s, idxs) && |s| >= 2
    ensures |DeleteAll(s, idxs)| >= 2
  {
    if idxs != [] {
      DescendingRoom(idxs, |idxs| - 1);
    }
  }

  class SliceSolution {
    var days: seq<Slice>
    var totalScore: real
    var totalDist: real

    // Every day has its own array.
    ghost predicate Valid()
      reads this, days
    {
      && (forall i :: 0 <= i < |days| ==> days[i].Valid())
      && (forall i, j :: 0 <= i < j < |days| ==> days[i] != days[j] && days[i].cells != days[j].cells)
    }

    ghost function Arrays(): set<object>
      reads this
    {
      set i | 0 <= i < |days| :: days[i].cells
    }

    // The same steps day by day.
    ghost predicate Equals(other: SliceSolution)
      requires Valid() && other.Valid()
      reads this, days, Arrays(), other, other.days, other.Arrays()
    {
      |days| == |other.days| && forall i :: 0 <= i < |days| ==> days[i].Contents() == other.days[i].Contents()
    }

    constructor (totalScore: real, totalDist: real)
      ensures Valid() && days == [] && this.totalScore == totalScore && this.totalDist == totalDist
    {
      days, this.totalScore, this.totalDist := [], totalScore, totalDist;
    }

    method Clone() returns (copy: SliceSolution)
      requires Valid()
      ensures fresh(copy) && fresh(copy.days) && fresh(copy.Arrays()) && copy.Valid()
      ensures copy.Equals(this) && copy.totalScore == totalScore && copy.totalDist == totalDist
    {
      copy := new SliceSolution(totalScore, totalDist);
      var i := 0;
      while i < |days|
        invariant 0 <= i <= |days| && |copy.days| == i
        invariant copy.Valid() && fresh(copy)
        invariant forall k :: 0 <= k < i ==> fresh(copy.days[k]) && fresh(copy.days[k].cells)
        invariant copy.totalScore == totalScore && copy.totalDist == totalDist
        invariant forall k :: 0 <= k < i ==> copy.days[k].Contents() == days[k].Contents()
      {
        var day := new Slice.Copy(days[i]);
        ghost var before := copy.days;
        copy.days := copy.days + [day];
        assert forall k :: 0 <= k < i ==> copy.days[k] == before[k];
        i := i + 1;
      }
    }

    // Removals of one shake, day by day.
    method RemoveEach(removals: seq<seq<nat>>)
      requires Valid() && Removable(removals)
      modifies days, Arrays()
      ensures Valid() && days == old(days)
      ensures forall i :: 0 <= i < |days| ==> days[i].Contents() == DeleteAll(old(days[i].Contents()), removals[i])
    {
      var i := 0;
      while i < |days|
        invariant Valid() && days == old(days) && 0 <= i <= |days|
        invariant forall k :: i <= k < |days| ==> days[k].Contents() == old(days[k].Contents())
        invariant forall k :: 0 <= k < i ==> days[k].Contents() == DeleteAll(old(days[k].Contents()), removals[k])
      {
        assert days[i].Contents() == old(days[i].Contents());
        days[i].DeleteEach(removals[i]);
        i := i + 1;
      }
    }

    ghost predicate Removable(removals: seq<seq<nat>>)
      requires Valid()
      reads this, days, Arrays()
    {
      && |removals| == |days|
      && forall i :: 0 <= i < |days| ==> Descending(removals[i]) && Inner(days[i].Contents(), removals[i])
    }

    // The in-place writes of force 2.
    method MoveJoint(joint: Option<(nat, nat)>)
      requires Valid() && (forall i :: 0 <= i < |days| ==> days[i].len >= 2)
      requires joint.Some? ==> joint.value.0 + 1 < |days|
      modifies Arrays()
      ensures Valid()
      ensures forall i :: 0 <= i < |days| ==>
        old(days[i].Contents()) != [] && days[i].Contents() == WithJoint(old(days[i].Contents()), i, joint)
    {
      if joint.Some? {
        var (j, h) := joint.value;
        days[j].SetPoint(days[j].len - 1, h);
        days[j + 1].SetPoint(0, h);
      }
    }

    // Emptying days: each gets a new slice of its hotels.
    method ClearDays(inst: Instance, clear: seq<bool>)
      requires Valid() && |clear| == |days|
      modifies this`days
      ensures Valid() && |days| == |old(days)|
      ensures forall i :: 0 <= i < |days| ==>
        days[i].Contents() == if clear[i] then HotelSteps(inst, old(days[i].Contents())) else old(days[i].Contents())
    {
      var i := 0;
      while i < |days|
        invariant Valid() && 0 <= i <= |days| == |old(days)|
        invariant forall k :: i <= k < |days| ==> days[k] == old(days)[k]
        invariant forall k :: 0 <= k < i ==> days[k] == old(days)[k] || (fresh(days[k]) && fresh(days[k].cells))
        invariant forall k :: 0 <= k < i ==>
          days[k].Contents() == if clear[k] then HotelSteps(inst, old(days[k].Contents())) else old(days[k].Contents())
      {
        if clear[i] {
          var day := days[i].Cleared(inst);
          days := days[i := day];
        }
        i := i + 1;
      }
    }

    // One shake: all deletions, the change of a hotel, the emptied days.
    method ShakeAll(inst: Instance, removals: seq<seq<nat>>, joint: Option<(nat, nat)>, clear: seq<bool>)
      requires Valid() && Removable(removals) && Long() && |clear| == |days|
      requires joint.Some? ==> joint.value.0 + 1 < |days|
      modifies this`days, days, Arrays()
      ensures Valid() && |days| == |old(days)|
      ensures forall i :: 0 <= i < |days| ==>
        DayShaken(inst, old(days[i].Contents()), days[i].Contents(), i, removals[i], joint, clear[i])
    {
      hide HotelSteps, WithJoint, Descending, Inner, DeleteAll;
      ghost var days0 := days;
      RemoveEach(removals);
      forall i | 0 <= i < |days|
        ensures |days[i].Contents()| >= 2
      {
        EndsRemain(old(days[i].Contents()), removals[i]);
      }
      MoveJoint(joint);
      assert days == days0;
      ClearDays(inst, clear);
    }

    // Every day has its two hotels.
    ghost predicate Long()
      reads this, days
    {
      forall i :: 0 <= i < |days| ==> days[i].len >= 2
    }
  }

  ghost predicate DayShaken(inst: Instance, was: seq<Step>, now: seq<Step>, d: nat, idxs: seq<nat>,
                            joint: Option<(nat, nat)>, clear: bool)
  {
    && Descending(idxs) && Inner(was, idxs) && DeleteAll(was, idxs) != []
    && now == Shaken(inst, was, d, idxs, joint, clear)
  }

  // The first steps of a round: clone the best, shake the clone. Nothing that existed
  // before is written, neither by the deletions nor by the change of a hotel.
  method ShakeClone(inst: Instance, best: SliceSolution, removals: seq<seq<nat>>, joint: Option<(nat, nat)>,
                    clear: seq<bool>)
    returns (candidate: SliceSolution)
    requires best.Valid() && best.Removable(removals) && best.Long()
    requires |clear| == |best.days| && (joint.Some? ==> joint.value.0 + 1 < |best.days|)
    ensures best.Valid() && best.days == old(best.days)
    ensures forall i :: 0 <= i < |best.days| ==> best.days[i].Contents() == old(best.days[i].Contents())
    ensures fresh(candidate) && candidate.Valid() && |candidate.days| == |best.days|
    ensures forall i :: 0 <= i < |best.days| ==>
      DayShaken(inst, best.days[i].Contents(), candidate.days[i].Contents(), i, removals[i], joint, clear[i])
  {
    hide Descending, Inner, DayShaken;
    candidate := best.Clone();
    LongClone(candidate, best);
    candidate.ShakeAll(inst, removals, joint, clear);
  }

  lemma LongClone(copy: SliceSolution, best: SliceSolution)
    requires copy.Valid() && best.Valid() && copy.Equals(best) && best.Long()
    ensures copy.Long()
  {
    forall i | 0 <= i < |copy.days|
      ensures copy.days[i].len >= 2
    {
      assert copy.days[i].len == |copy.days[i].Contents()| == |best.days[i].Contents()|;
    }
  }

  // Were the array shared, deleting through one slice would change what the other shows.
  method SharedDelete(a: Step, b: Step, c: Step) returns (kept: seq<Step>, other: seq<Step>)
    ensures kept == [a, c] && other == [a, c, c]
  {
    var day := new Slice.Of([a, b, c]);
    var shared := new Slice.Sharing(day);
    assert day.Contents() == [a, b, c];
    shared.Delete(1);
    kept, other := shared.cells[..shared.len], day.cells[..day.len];
    assert other[0] == kept[0] && other[1] == kept[1];
  }
}

// What the code leaves open: tours the validator accepts although no search produces
// them, and accepted tours that a shake of force 2 drives over budget.

module Gaps {
  import opened Instances
  import opened Schedules
  import opened Tours
  import opened ShakeForces
  import Validator

  // Two hotels at distance 10 and no site; two days with the given budget, both trips
  // from hotel 0 to hotel 0.
  function TwoHotels(budget: real): Instance {
    Instance(2, budget, [],
             [Point(0, Hotel, 0.0, 0.0, 0.0, 0.0), Point(1, Hotel, 0.0, 0.0, 0.0, 0.0)],
             [0, 1], [], [[0.0, 10.0], [10.0, 0.0]], 0, 0)
  }

  lemma TwoHotelsValid(budget: real)
    requires budget >= 0.0
    ensures TwoHotels(budget).Valid()
  {
  }

  lemma NoSites(budget: real, tour: Tour)
    ensures AllSites(TwoHotels(budget), tour) == multiset{}
  {
    forall u: nat
      ensures AllSites(TwoHotels(budget), tour)[u] == 0
    {
      if u in AllSites(TwoHotels(budget), tour) {
        SitesBeforeAreSites(TwoHotels(budget), tour, |tour|, u);
      }
    }
  }

  // The day ends at hotel 0, the next one starts at hotel 1, and the validator agrees.
  lemma AcceptedUnchained()
    ensures TwoHotels(20.0).Valid()
    ensures Validator.Accepted(TwoHotels(20.0), [[0, 0], [1, 0]])
    ensures !WellFormed(TwoHotels(20.0), [[0, 0], [1, 0]])
  {
    var inst, tour: Tour := TwoHotels(20.0), [[0, 0], [1, 0]];
    TwoHotelsValid(20.0);
    NoSites(20.0, tour);
    TwoStopsFeasible(inst, 0, 0, 0);
    TwoStopsFeasible(inst, 1, 1, 0);
    assert !ChainedAt(tour, 0);
  }

  // For tours of the right shape the missing checks are exactly the joints between days.
  lemma AcceptedIffChained(inst: Instance, tour: Tour)
    requires |tour| == inst.nbDays >= 1 && forall d :: 0 <= d < |tour| ==> DayShape(inst, tour[d])
    ensures (Validator.Accepted(inst, tour) && forall d: nat :: ChainedAt(tour, d)) <==>
            (WellFormed(inst, tour) && AllFeasible(inst, tour))
  {
    hide Feasible, NoRepeat;
    if WellFormed(inst, tour) {
      Validator.AcceptedMeansFeasible(inst, tour);
    } else if Validator.Accepted(inst, tour) && forall d: nat :: ChainedAt(tour, d) {
      assert Validator.DayAccepted(inst, 0, tour[0]) && Validator.DayAccepted(inst, |tour| - 1, tour[|tour| - 1]);
    }
  }

  // With a budget of 5 the trip stays at hotel 0; moving the junction to hotel 1 costs 10.
  lemma ForceTwoOverBudget()
    ensures var inst := TwoHotels(5.0);
            var tour: Tour := [[0, 0], [0, 0]];
            && inst.Valid() && WellFormed(inst, tour) && Validator.Accepted(inst, tour)
            && inst.IsHotel(1) && WellFormed(inst, Rejoined(tour, 0, 1))
            && !Validator.Accepted(inst, Rejoined(tour, 0, 1))
  {
    var inst, tour: Tour := TwoHotels(5.0), [[0, 0], [0, 0]];
    TwoHotelsValid(5.0);
    NoSites(5.0, tour);
    TwoStopsFeasible(inst, 0, 0, 0);
    TwoStopsFeasible(inst, 1, 0, 0);
    assert WellFormed(inst, tour);
    RejoinedKeeps(inst, tour, 0, 1);
    RejoinedFeasible(inst, tour, 0, 1);
    Validator.AcceptedMeansFeasible(inst, Rejoined(tour, 0, 1));
  }
}

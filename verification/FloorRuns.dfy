/** The floor budget over whole runs: what the census drew is what is left of it and what was paid as floors, and
    it covers every floor as long as no more are taken in a band than the census counted there. */
module FloorRuns {
  import opened Prelude
  import opened CampaignContract
  import opened ClaimEligibility
  import opened ClaimRuns

  // ----- Counting recipients ---------------------------------------------------------------------

  function TakersIn(c: Campaign, band: nat): set<Pass> {
    set pass | pass in c.applications && c.applications[pass].floorClaimed && c.applications[pass].band == band
  }

  function RegisteredIn(c: Campaign, band: nat): set<Pass> {
    set pass | pass in c.applications && c.applications[pass].band == band
  }

  /** How many have taken a floor, band by band. */
  function Takers(c: Campaign): Bands {
    Bands(|TakersIn(c, 1)|, |TakersIn(c, 2)|, |TakersIn(c, 3)|)
  }

  /** How many have registered, the excluded included. */
  function Registered(c: Campaign): Bands {
    Bands(|RegisteredIn(c, 1)|, |RegisteredIn(c, 2)|, |RegisteredIn(c, 3)|)
  }

  predicate AtMost(a: Bands, b: Bands) {
    a.one <= b.one && a.two <= b.two && a.three <= b.three
  }

  function FloorTotal(paid: seq<Payment>): nat {
    if |paid| == 0 then 0
    else
      var last := paid[|paid| - 1];
      FloorTotal(paid[..|paid| - 1]) + (if last.Floor? then last.amount else 0)
  }

  lemma FloorTotalAppend(paid: seq<Payment>, p: Payment)
    ensures FloorTotal(paid + [p]) == FloorTotal(paid) + (if p.Floor? then p.amount else 0)
  {
    assert (paid + [p])[..|paid|] == paid;
  }

  lemma FloorTotalOfClaim(paid: seq<Payment>, pass: Pass, claimed: Claimed)
    ensures FloorTotal(paid + Payments(pass, claimed))
            == FloorTotal(paid) + (if claimed.floor.Some? then claimed.floor.value else 0)
  {
    var log := paid;
    if claimed.floor.Some? {
      FloorTotalAppend(paid, Floor(pass, claimed.floor.value));
      log := paid + [Floor(pass, claimed.floor.value)];
    }
    if claimed.payout.Some? {
      FloorTotalAppend(log, Payout(pass, claimed.next.round, claimed.payout.value));
      log := log + [Payout(pass, claimed.next.round, claimed.payout.value)];
    }
    assert log == paid + Payments(pass, claimed);
  }

  lemma WeightedMonotone(a: Bands, b: Bands, amounts: Bands)
    requires AtMost(a, b)
    ensures Weighted(a, amounts) <= Weighted(b, amounts)
  {
    ProductMonotone(a.one, b.one, amounts.one);
    ProductMonotone(a.two, b.two, amounts.two);
    ProductMonotone(a.three, b.three, amounts.three);
  }

  lemma ProductMonotone(a: nat, b: nat, n: nat)
    requires a <= b
    ensures a * n <= b * n
  {
    assert b * n == a * n + (b - a) * n;
  }

  // ----- What each entry does to the books --------------------------------------------------------

  /** The same recipients have taken their floors, at the same amounts. */
  ghost predicate SameTakers(c: Campaign, d: Campaign) {
    forall band :: TakersIn(d, band) == TakersIn(c, band)
  }

  /** One more has taken the floor, in its band. */
  ghost predicate OneTakes(c: Campaign, d: Campaign, pass: Pass, band: nat) {
    && 1 <= band <= 3 && pass !in TakersIn(c, band)
    && forall b :: TakersIn(d, b) == if b == band then TakersIn(c, b) + {pass} else TakersIn(c, b)
  }

  lemma OneTakesCounts(c: Campaign, d: Campaign, pass: Pass, band: nat)
    requires OneTakes(c, d, pass, band)
    ensures Takers(d) == Takers(c).Plus(band)
  {
  }

  lemma FloorMarks(c: Campaign, pass: Pass)
    requires pass in c.applications && !c.applications[pass].floorClaimed && 1 <= c.applications[pass].band <= 3
    requires PayFloor(c, pass).Ok?
    ensures OneTakes(c, PayFloor(c, pass).value, pass, c.applications[pass].band)
  {
    var d, taker := PayFloor(c, pass).value, c.applications[pass].band;
    forall b ensures TakersIn(d, b) == if b == taker then TakersIn(c, b) + {pass} else TakersIn(c, b) {
      assert forall other :: other in d.applications && other != pass ==>
               d.applications[other] == c.applications[other];
    }
  }

  lemma AdmitKeepsTakers(c: Campaign, pass: Pass, evidence: Evidence, now: nat)
    requires Admit(c, pass, evidence, now).Ok?
    ensures Takers(Admit(c, pass, evidence, now).value) == Takers(c)
  {
    assert SameTakers(c, Admit(c, pass, evidence, now).value);
  }

  /** The floor side of a claim that goes through. */
  lemma ClaimMovesFloor(c: Campaign, pass: Pass, evidence: Evidence, now: nat, claimed: Claimed)
    requires Solvent(c) && Claim(c, pass, evidence, now) == Ok(claimed)
    ensures claimed.next.floorAmounts == c.floorAmounts && claimed.next.censusSet == c.censusSet
    ensures claimed.next.floorBudgetReturned == c.floorBudgetReturned
    ensures if WillPayFloor(c, pass)
            then var band := PaidBand(c, pass, evidence.band);
                 && Takers(claimed.next) == Takers(c).Plus(band) && claimed.floor == Some(c.floorAmounts.At(band))
                 && claimed.next.floorBalance + c.floorAmounts.At(band) == c.floorBalance
            else Takers(claimed.next) == Takers(c) && claimed.floor.None? && claimed.next.floorBalance == c.floorBalance
  {
    var admitted := Admit(c, pass, evidence, now).value;
    var d := Opened(c, pass, evidence, now);
    FinalizeKeepsBooks(admitted, now);
    AdmitKeepsTakers(c, pass, evidence, now);
    SameApplications(admitted, d);
    PayMovesFloor(d, pass, WillPayFloor(c, pass), pass !in c.applications, claimed);
  }

  lemma FinalizeKeepsBooks(c: Campaign, now: nat)
    ensures var d := LazyFinalize(c, now);
            && d.applications == c.applications && d.floorAmounts == c.floorAmounts && d.floorBalance == c.floorBalance
            && d.censusSet == c.censusSet && d.floorBudgetReturned == c.floorBudgetReturned
  {
  }

  lemma PayMovesFloor(c: Campaign, pass: Pass, payFloor: bool, first: bool, claimed: Claimed)
    requires pass in c.applications && 1 <= c.applications[pass].band <= 3
    requires payFloor ==> !c.applications[pass].floorClaimed
    requires Pay(c, pass, payFloor, first) == Ok(claimed)
    ensures claimed.next.floorAmounts == c.floorAmounts && claimed.next.censusSet == c.censusSet
    ensures claimed.next.floorBudgetReturned == c.floorBudgetReturned
    ensures var amount := c.floorAmounts.At(c.applications[pass].band);
            if payFloor
            then && Takers(claimed.next) == Takers(c).Plus(c.applications[pass].band) && claimed.floor == Some(amount)
                 && claimed.next.floorBalance + amount == c.floorBalance
            else Takers(claimed.next) == Takers(c) && claimed.floor.None? && claimed.next.floorBalance == c.floorBalance
  {
    var d := if payFloor then PayFloor(c, pass).value else c;
    assert claimed.next.applications == d.applications;
    SameApplications(d, claimed.next);
    if payFloor {
      FloorMarks(c, pass);
      OneTakesCounts(c, d, pass, c.applications[pass].band);
    }
  }

  lemma SameApplications(c: Campaign, d: Campaign)
    requires d.applications == c.applications
    ensures Takers(d) == Takers(c)
  {
    assert SameTakers(c, d);
  }

  lemma ExcludeKeepsTakers(c: Campaign, pass: Pass)
    requires Exclude(c, pass).Some?
    ensures var d := Exclude(c, pass).value;
            && Takers(d) == Takers(c) && d.floorAmounts == c.floorAmounts && d.floorBalance == c.floorBalance
            && d.censusSet == c.censusSet && d.floorBudgetReturned == c.floorBudgetReturned
  {
    assert SameTakers(c, Exclude(c, pass).value);
  }

  // ----- The books over a run ---------------------------------------------------------------------

  /** Before the census nobody has taken a floor, and there is no budget. */
  predicate NoFloorYet(w: World) {
    !w.c.censusSet ==> Takers(w.c) == Bands(0, 0, 0) && FloorTotal(w.paid) == 0 && w.c.floorBalance == 0
  }

  /** After it every floor paid is one its taker took, and the budget is what it was less those. */
  predicate Balanced(w: World, amounts: Bands, drawn: nat) {
    && w.c.censusSet && w.c.floorAmounts == amounts
    && FloorTotal(w.paid) == Weighted(Takers(w.c), amounts)
    && (!w.c.floorBudgetReturned ==> w.c.floorBalance + FloorTotal(w.paid) == drawn)
  }

  /** A step that leaves the books as they are. */
  predicate SameBooks(w: World, d: World) {
    && Takers(d.c) == Takers(w.c) && d.paid == w.paid && d.c.floorAmounts == w.c.floorAmounts
    && d.c.floorBalance == w.c.floorBalance && d.c.censusSet == w.c.censusSet
    && d.c.floorBudgetReturned == w.c.floorBudgetReturned
  }

  lemma StepKeepsBooks(w: World, step: Step)
    requires step.Tick? || step.Excluding? || step.Depositing? || step.Sweeping?
    ensures SameBooks(w, Apply(w, step))
  {
    if step.Excluding? && Exclude(w.c, step.pass).Some? {
      ExcludeKeepsTakers(w.c, step.pass);
    } else {
      assert SameTakers(w.c, Apply(w, step).c);
    }
  }

  lemma ClaimKeepsNoFloorYet(w: World, pass: Pass, evidence: Evidence)
    requires Inv(w) && NoFloorYet(w)
    ensures NoFloorYet(Apply(w, Claiming(pass, evidence)))
  {
    var r := Claim(w.c, pass, evidence, w.now);
    if r.Ok? {
      ClaimMovesFloor(w.c, pass, evidence, w.now, r.value);
      FloorTotalOfClaim(w.paid, pass, r.value);
    }
  }

  /** One more floor of the band: what the takers got together, and what is left. */
  lemma OneMoreFloor(takers: Bands, amounts: Bands, band: nat, total: nat, left: nat, drawn: nat)
    requires total == Weighted(takers, amounts) && amounts.At(band) <= left
    ensures total + amounts.At(band) == Weighted(takers.Plus(band), amounts)
    ensures left + total == drawn ==> left - amounts.At(band) + (total + amounts.At(band)) == drawn
  {
    CountOneMore(takers, amounts, band);
  }

  lemma ClaimKeepsBalanced(w: World, pass: Pass, evidence: Evidence, amounts: Bands, drawn: nat)
    requires Inv(w) && Balanced(w, amounts, drawn)
    ensures Balanced(Apply(w, Claiming(pass, evidence)), amounts, drawn)
  {
    var r := Claim(w.c, pass, evidence, w.now);
    if r.Ok? {
      ClaimMovesFloor(w.c, pass, evidence, w.now, r.value);
      FloorTotalOfClaim(w.paid, pass, r.value);
      if WillPayFloor(w.c, pass) {
        OneMoreFloor(Takers(w.c), amounts, PaidBand(w.c, pass, evidence.band), FloorTotal(w.paid), w.c.floorBalance,
                     drawn);
      }
    }
  }

  lemma StepKeepsNoFloorYet(w: World, step: Step)
    requires Inv(w) && NoFloorYet(w)
    ensures NoFloorYet(Apply(w, step))
  {
    match step
    case Claiming(pass, evidence) => ClaimKeepsNoFloorYet(w, pass, evidence);
    case Counting(census) =>
    case ReturningFloor =>
    case _ => StepKeepsBooks(w, step);
  }

  lemma StepKeepsBalanced(w: World, step: Step, amounts: Bands, drawn: nat)
    requires Inv(w) && Balanced(w, amounts, drawn)
    ensures Balanced(Apply(w, step), amounts, drawn)
  {
    match step
    case Claiming(pass, evidence) => ClaimKeepsBalanced(w, pass, evidence, amounts, drawn);
    case Counting(census) =>
    case ReturningFloor => assert SameTakers(w.c, Apply(w, step).c);
    case _ => StepKeepsBooks(w, step);
  }

  lemma {:induction false} RunKeepsNoFloorYet(w: World, steps: seq<Step>)
    requires Inv(w) && NoFloorYet(w)
    ensures Inv(Run(w, steps)) && NoFloorYet(Run(w, steps))
    decreases |steps|
  {
    if |steps| > 0 {
      StepKeepsInv(w, steps[0]);
      StepKeepsNoFloorYet(w, steps[0]);
      RunKeepsNoFloorYet(Apply(w, steps[0]), steps[1..]);
    }
  }

  lemma {:induction false} RunKeepsBalanced(w: World, steps: seq<Step>, amounts: Bands, drawn: nat)
    requires Inv(w) && Balanced(w, amounts, drawn)
    ensures Inv(Run(w, steps)) && Balanced(Run(w, steps), amounts, drawn)
    decreases |steps|
  {
    if |steps| > 0 {
      StepKeepsInv(w, steps[0]);
      StepKeepsBalanced(w, steps[0], amounts, drawn);
      RunKeepsBalanced(Apply(w, steps[0]), steps[1..], amounts, drawn);
    }
  }

  lemma TermsStay(start: nat, steps: seq<Step>)
    ensures Run(Start(start), steps).c.terms == TERMS
  {
    RunGrows(Start(start), steps);
  }

  function Drawn(census: Census): nat {
    PlanFloor(TERMS.targets, census).drawCategory + PlanFloor(TERMS.targets, census).drawMain
  }

  /** The world in which the census has just been applied, and any run from there. */
  function AfterCensus(start: nat, before: seq<Step>, census: Census, later: seq<Step>): World {
    Run(Apply(Run(Start(start), before), Counting(census)), later)
  }

  /** A census is accepted after this run: the first one, before the donations end. */
  predicate CensusFits(start: nat, before: seq<Step>) {
    var w := Run(Start(start), before);
    !w.c.censusSet && w.now < w.c.donationEnd
  }

  lemma CensusBalances(start: nat, before: seq<Step>, census: Census, later: seq<Step>)
    requires CensusFits(start, before)
    ensures Inv(AfterCensus(start, before, census, later))
    ensures Balanced(AfterCensus(start, before, census, later), PlanFloor(TERMS.targets, census).amounts, Drawn(census))
  {
    var w := Run(Start(start), before);
    var counted := Apply(w, Counting(census));
    StartIsInv(start);
    assert NoFloorYet(Start(start));
    RunKeepsNoFloorYet(Start(start), before);
    TermsStay(start, before);
    StepKeepsInv(w, Counting(census));
    assert SameTakers(w.c, counted.c);
    RunKeepsBalanced(counted, later, PlanFloor(TERMS.targets, census).amounts, Drawn(census));
  }

  // ----- Main results ----------------------------------------------------------------------------

  /** In any run of a created campaign, until the rest of the floor budget is returned, what the census drew is what
      is left of it and what was paid as floors; and the next floor is funded exactly if the floors taken, with this
      one, are within what was drawn. */
  lemma FloorBudgetIsConserved(start: nat, before: seq<Step>, census: Census, later: seq<Step>, pass: Pass, band: nat)
    requires CensusFits(start, before)
    ensures var w := AfterCensus(start, before, census, later);
            && (!w.c.floorBudgetReturned ==> w.c.floorBalance + FloorTotal(w.paid) == Drawn(census))
            && (WillPayFloor(w.c, pass) ==>
                  (FloorFunded(w.c, pass, band) <==>
                   Weighted(Takers(w.c).Plus(PaidBand(w.c, pass, band)), w.c.floorAmounts) <= Drawn(census)))
  {
    var w := AfterCensus(start, before, census, later);
    CensusBalances(start, before, census, later);
    CountOneMore(Takers(w.c), w.c.floorAmounts, PaidBand(w.c, pass, band));
  }

  /** Who has registered once the pass has. */
  function WithClaimer(c: Campaign, pass: Pass, band: nat): Bands {
    if pass in c.applications then Registered(c) else Registered(c).Plus(band)
  }

  lemma TakersAreRegistered(c: Campaign, band: nat)
    ensures |TakersIn(c, band)| <= |RegisteredIn(c, band)|
  {
    SubsetSize(TakersIn(c, band), RegisteredIn(c, band));
  }

  lemma ClaimerIsNoTaker(c: Campaign, pass: Pass)
    requires pass in c.applications && !c.applications[pass].floorClaimed
    ensures |TakersIn(c, c.applications[pass].band)| + 1 <= |RegisteredIn(c, c.applications[pass].band)|
  {
    var band := c.applications[pass].band;
    SubsetSize(TakersIn(c, band) + {pass}, RegisteredIn(c, band));
  }

  lemma TakersWithinRegistered(c: Campaign, pass: Pass, band: nat)
    requires WellFormed(c) && WillPayFloor(c, pass)
    ensures AtMost(Takers(c).Plus(PaidBand(c, pass, band)), WithClaimer(c, pass, band))
  {
    TakersAreRegistered(c, 1);
    TakersAreRegistered(c, 2);
    TakersAreRegistered(c, 3);
    if pass in c.applications {
      ClaimerIsNoTaker(c, pass);
    }
  }

  lemma RegisteredFit(w: World, census: Census, amounts: Bands, drawn: nat, pass: Pass, band: nat)
    requires Inv(w) && Balanced(w, amounts, drawn) && Weighted(census.registered, amounts) <= drawn
    requires AtMost(WithClaimer(w.c, pass, band), census.registered)
    ensures FloorFunded(w.c, pass, band)
  {
    if WillPayFloor(w.c, pass) {
      TakersWithinRegistered(w.c, pass, band);
      WeightedMonotone(Takers(w.c).Plus(PaidBand(w.c, pass, band)), census.registered, amounts);
      CountOneMore(Takers(w.c), amounts, PaidBand(w.c, pass, band));
    }
  }

  lemma CountedFit(census: Census)
    ensures Weighted(census.registered, PlanFloor(TERMS.targets, census).amounts) <= Drawn(census)
  {
    FloorsFitBudget(TERMS.targets, census);
  }

  lemma FundedClaim(w: World, pass: Pass, evidence: Evidence)
    requires Inv(w) && FloorFunded(w.c, pass, evidence.band)
    ensures Claim(w.c, pass, evidence, w.now) != Err(FloorUnfunded)
  {
    ClaimOutcome(w.c, pass, evidence, w.now);
  }

  lemma CountedAreCovered(w: World, census: Census, amounts: Bands, drawn: nat, pass: Pass, evidence: Evidence)
    requires Inv(w) && Balanced(w, amounts, drawn) && Weighted(census.registered, amounts) <= drawn
    ensures AtMost(WithClaimer(w.c, pass, evidence.band), census.registered) ==>
              FloorFunded(w.c, pass, evidence.band) && Claim(w.c, pass, evidence, w.now) != Err(FloorUnfunded)
  {
    if AtMost(WithClaimer(w.c, pass, evidence.band), census.registered) {
      RegisteredFit(w, census, amounts, drawn, pass, evidence.band);
      FundedClaim(w, pass, evidence);
    }
  }

  /** As long as no band has more registered recipients, the claimer included, than the census counted in it, no claim
      aborts for want of its floor. */
  lemma CensusCoversFloors(start: nat, before: seq<Step>, census: Census, later: seq<Step>, pass: Pass,
                           evidence: Evidence)
    requires CensusFits(start, before)
    ensures var w := AfterCensus(start, before, census, later);
            AtMost(WithClaimer(w.c, pass, evidence.band), census.registered) ==>
              FloorFunded(w.c, pass, evidence.band) && Claim(w.c, pass, evidence, w.now) != Err(FloorUnfunded)
  {
    CensusBalances(start, before, census, later);
    CountedFit(census);
    CountedAreCovered(AfterCensus(start, before, census, later), census, PlanFloor(TERMS.targets, census).amounts,
                      Drawn(census), pass, evidence);
  }
}

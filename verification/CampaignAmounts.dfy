/** How much a campaign pays: the payouts a finalisation sets and a claim pays, and the floors a census sets, each
    the largest whole amount within its share; and what they come to in a created campaign. */
module CampaignAmounts {
  import opened Prelude
  import opened CampaignContract
  import opened ClaimEligibility
  import opened ClaimRuns

  // ----- The payouts of a round --------------------------------------------------------------------

  /** `share` is what `target` gets of `available` when `whole` is owed in all, rounded down. */
  predicate IsShare(share: nat, target: nat, available: nat, whole: nat) {
    share * whole <= target * available < (share + 1) * whole
  }

  lemma QuotientBounds(a: nat, n: nat)
    requires n > 0
    ensures a / n * n <= a < (a / n + 1) * n
  {
    assert a == a / n * n + a % n;
  }

  lemma ShareIsShare(target: nat, available: nat, whole: nat)
    requires whole > 0
    ensures IsShare(ShareOf(target, available, whole), target, available, whole)
  {
    QuotientBounds(target * available, whole);
  }

  /** What the recipients who count are owed together at full targets. */
  function Owed(c: Campaign): nat {
    c.verifiedCounts.one * c.terms.targets.one + c.verifiedCounts.two * c.terms.targets.two
    + c.verifiedCounts.three * c.terms.targets.three
  }

  function Recipients(c: Campaign): nat {
    c.verifiedCounts.one + c.verifiedCounts.two + c.verifiedCounts.three
  }

  /** Each band's payout is its share, and nothing is paid where nothing is owed. */
  predicate SharesOf(c: Campaign, payouts: Bands) {
    if Owed(c) == 0 then payouts == Bands(0, 0, 0)
    else
      var available := if c.balance < Owed(c) * c.terms.capMultiplier then c.balance
                       else Owed(c) * c.terms.capMultiplier;
      && IsShare(payouts.one, c.terms.targets.one, available, Owed(c))
      && IsShare(payouts.two, c.terms.targets.two, available, Owed(c))
      && IsShare(payouts.three, c.terms.targets.three, available, Owed(c))
  }

  /** A finalisation stops where the pool is less than the least payout for everyone. Otherwise it opens the next round
      with every band's share, and changes nothing else. */
  lemma FinalizedRound(c: Campaign, now: nat)
    ensures var d := FinalizeRound(c, now);
            if Recipients(c) > 0 && c.balance < c.terms.minPayout * Recipients(c) then d == c.(sweepEligible := true)
            else
              && SharesOf(c, d.payouts)
              && d == c.(round := c.round + 1, finalizedAt := now, payouts := d.payouts, sweepEligible := Owed(c) == 0)
  {
    if Owed(c) > 0 {
      var cap := Owed(c) * c.terms.capMultiplier;
      var available := if c.balance < cap then c.balance else cap;
      ShareIsShare(c.terms.targets.one, available, Owed(c));
      ShareIsShare(c.terms.targets.two, available, Owed(c));
      ShareIsShare(c.terms.targets.three, available, Owed(c));
    }
  }

  // ----- What one claim pays -----------------------------------------------------------------------

  /** One of three amounts, by band. */
  predicate IsOfBand(amount: nat, amounts: Bands, band: nat) {
    && 1 <= band <= 3
    && (band == 1 ==> amount == amounts.one) && (band == 2 ==> amount == amounts.two)
    && (band == 3 ==> amount == amounts.three)
  }

  lemma AtIsOfBand(amounts: Bands, band: nat)
    requires 1 <= band <= 3
    ensures IsOfBand(amounts.At(band), amounts, band)
  {
  }

  lemma FloorPaid(c: Campaign, pass: Pass, d: Campaign)
    requires pass in c.applications && 1 <= c.applications[pass].band <= 3 && PayFloor(c, pass) == Ok(d)
    ensures IsOfBand(c.floorAmounts.At(c.applications[pass].band), c.floorAmounts, c.applications[pass].band)
    ensures d.floorBalance + c.floorAmounts.At(c.applications[pass].band) == c.floorBalance
    ensures d.applications == c.applications[pass := c.applications[pass].(floorClaimed := true)]
    ensures d == c.(applications := d.applications, floorBalance := d.floorBalance)
  {
    AtIsOfBand(c.floorAmounts, c.applications[pass].band);
  }

  lemma PayoutPaid(c: Campaign, pass: Pass, d: Campaign)
    requires pass in c.applications && 1 <= c.applications[pass].band <= 3 && PayPayout(c, pass) == Ok(d)
    ensures IsOfBand(c.payouts.At(c.applications[pass].band), c.payouts, c.applications[pass].band)
    ensures d.balance + c.payouts.At(c.applications[pass].band) == c.balance
    ensures d == c.(payoutKeys := d.payoutKeys, balance := d.balance)
  {
    AtIsOfBand(c.payouts, c.applications[pass].band);
  }

  /** The two payments leave the round and its amounts, and take from the pools what they pay. */
  lemma PaidAmounts(c: Campaign, pass: Pass, payFloor: bool, first: bool, claimed: Claimed)
    requires pass in c.applications && 1 <= c.applications[pass].band <= 3
    requires Pay(c, pass, payFloor, first) == Ok(claimed)
    ensures var d := claimed.next;
            && d.round == c.round && d.payouts == c.payouts && d.verifiedCounts == c.verifiedCounts
            && d.terms == c.terms && pass in d.applications && d.applications[pass].band == c.applications[pass].band
    ensures claimed.payout.Some? ==> IsOfBand(claimed.payout.value, c.payouts, c.applications[pass].band)
    ensures claimed.floor.Some? ==> IsOfBand(claimed.floor.value, c.floorAmounts, c.applications[pass].band)
    ensures claimed.next.balance + (if claimed.payout.Some? then claimed.payout.value else 0) == c.balance
    ensures claimed.next.floorBalance + (if claimed.floor.Some? then claimed.floor.value else 0) == c.floorBalance
  {
    var d := if payFloor then PayFloor(c, pass).value else c;
    if payFloor {
      FloorPaid(c, pass, d);
    }
    if PayoutDue(d, pass) {
      PayoutPaid(d, pass, claimed.next);
    }
  }

  /** What a claim pays out of, once it is admitted and has opened a round or not. */
  lemma ReadyAmounts(c: Campaign, pass: Pass, evidence: Evidence, now: nat)
    requires WellFormed(c) && Admit(c, pass, evidence, now).Ok?
    ensures var d := LazyFinalize(Admit(c, pass, evidence, now).value, now);
            && pass in d.applications && 1 <= d.applications[pass].band <= 3
            && (pass in c.applications ==> d.applications[pass].band == c.applications[pass].band)
            && (pass !in c.applications ==> d.applications[pass].band == evidence.band)
            && d.balance == c.balance && d.floorBalance == c.floorBalance && d.floorAmounts == c.floorAmounts
            && d.terms == c.terms
            && if d.round == c.round then d.payouts == c.payouts
               else
                 && d.round == c.round + 1 && c.balance >= c.terms.minPayout * Recipients(d)
                 && SharesOf(d, d.payouts)
  {
    var admitted := Admit(c, pass, evidence, now).value;
    FinalizedRound(admitted, now);
    FinalizeMovesRound(admitted, now);
    FinalizeKeepsFloor(admitted, now);
  }

  /** The amounts of a claim that goes through: the pass's band of what the round pays, and of the floors; and the
      round is the one it met, or a new one with every band's share of the pool before the payment. */
  lemma ClaimedAmounts(c: Campaign, pass: Pass, evidence: Evidence, now: nat, claimed: Claimed)
    requires WellFormed(c) && Claim(c, pass, evidence, now) == Ok(claimed)
    ensures var d := claimed.next;
            && pass in d.applications
            && (pass in c.applications ==> d.applications[pass].band == c.applications[pass].band)
            && (pass !in c.applications ==> d.applications[pass].band == evidence.band)
            && (claimed.payout.Some? ==> IsOfBand(claimed.payout.value, d.payouts, d.applications[pass].band))
            && (claimed.floor.Some? ==> IsOfBand(claimed.floor.value, c.floorAmounts, d.applications[pass].band))
            && d.balance + (if claimed.payout.Some? then claimed.payout.value else 0) == c.balance
            && d.floorBalance + (if claimed.floor.Some? then claimed.floor.value else 0) == c.floorBalance
            && d.terms == c.terms
            && if d.round == c.round then d.payouts == c.payouts
               else
                 && d.round == c.round + 1 && c.balance >= c.terms.minPayout * Recipients(d)
                 && SharesOf(d.(balance := c.balance), d.payouts)
  {
    var ready := LazyFinalize(Admit(c, pass, evidence, now).value, now);
    ReadyAmounts(c, pass, evidence, now);
    PaidAmounts(ready, pass, WillPayFloor(c, pass), pass !in c.applications, claimed);
  }

  // ----- The floors of a census --------------------------------------------------------------------

  /** `n` is the largest number that fits under two bounds. */
  predicate IsLargest(n: nat, used: nat, twice: nat, fifth: nat) {
    && 2 * (used + n) <= twice && 5 * n <= fifth
    && (2 * (used + n + 1) > twice || 5 * (n + 1) > fifth)
  }

  lemma HalfOf(n: nat)
    ensures ShareOf(n, FLOOR_TARGET_RATIO_BPS, BPS) == n / 2
  {
    assert n * 5_000 / 10_000 == n / 2;
  }

  lemma FifthOf(n: nat)
    ensures ShareOf(n, FLOOR_MAIN_SHARE_BPS, BPS) == n / 5
  {
    assert n * 2_000 / 10_000 == n / 5;
  }

  /** How many ten-thousandths of its target each band gets: as many as the draw covers, up to half. */
  predicate IsRatio(ratio: nat, drawn: nat, owed: nat) {
    && ratio <= 5_000 && ratio * owed <= 10_000 * drawn
    && (ratio == 5_000 || 10_000 * drawn < (ratio + 1) * owed)
  }

  lemma RatioIsRatio(drawn: nat, owed: nat)
    requires owed > 0
    ensures IsRatio(FloorRatio(drawn, owed), drawn, owed)
  {
    ShareIsShare(drawn, BPS, owed);
    var full, ratio := ShareOf(drawn, BPS, owed), FloorRatio(drawn, owed);
    if ratio < full {
      assert full * owed == ratio * owed + (full - ratio) * owed;
    }
  }

  lemma DrawsAreLargest(targets: Bands, census: Census)
    requires Weighted(census.registered, targets) > 0
    ensures var owed, plan := Weighted(census.registered, targets), PlanFloor(targets, census);
            && IsLargest(plan.drawCategory, 0, owed, census.categoryBalance)
            && IsLargest(plan.drawMain, plan.drawCategory, owed, census.mainDisposable)
  {
    HalfOf(Weighted(census.registered, targets));
    FifthOf(census.mainDisposable);
  }

  lemma FloorsAreShares(targets: Bands, census: Census) returns (ratio: nat)
    requires Weighted(census.registered, targets) > 0
    ensures var owed, plan := Weighted(census.registered, targets), PlanFloor(targets, census);
            && IsRatio(ratio, plan.drawCategory + plan.drawMain, owed)
            && IsShare(plan.amounts.one, targets.one, ratio, 10_000)
            && IsShare(plan.amounts.two, targets.two, ratio, 10_000)
            && IsShare(plan.amounts.three, targets.three, ratio, 10_000)
  {
    var owed, plan := Weighted(census.registered, targets), PlanFloor(targets, census);
    ratio := FloorRatio(plan.drawCategory + plan.drawMain, owed);
    RatioIsRatio(plan.drawCategory + plan.drawMain, owed);
    ShareIsShare(targets.one, ratio, BPS);
    ShareIsShare(targets.two, ratio, BPS);
    ShareIsShare(targets.three, ratio, BPS);
  }

  /** What a plan draws, and the floors it sets. */
  predicate IsPlan(plan: FloorPlan, targets: Bands, census: Census, ratio: nat) {
    var owed := census.registered.one * targets.one + census.registered.two * targets.two
                + census.registered.three * targets.three;
    if owed == 0 then plan == FloorPlan(Bands(0, 0, 0), 0, 0)
    else
      && IsLargest(plan.drawCategory, 0, owed, census.categoryBalance)
      && IsLargest(plan.drawMain, plan.drawCategory, owed, census.mainDisposable)
      && IsRatio(ratio, plan.drawCategory + plan.drawMain, owed)
      && IsShare(plan.amounts.one, targets.one, ratio, 10_000)
      && IsShare(plan.amounts.two, targets.two, ratio, 10_000)
      && IsShare(plan.amounts.three, targets.three, ratio, 10_000)
  }

  lemma PlanIsPlan(targets: Bands, census: Census) returns (ratio: nat)
    ensures IsPlan(PlanFloor(targets, census), targets, census, ratio)
  {
    ratio := 0;
    if Weighted(census.registered, targets) > 0 {
      DrawsAreLargest(targets, census);
      ratio := FloorsAreShares(targets, census);
    }
  }

  /** A census is accepted once, before the donations end. It draws the floors from the category pool as far as half of
      what is owed and a fifth of the pool go, and the rest from the main pool, as far as a fifth of its spare money
      goes; and each band's floor is its share of what was drawn. */
  lemma CensusAmounts(c: Campaign, census: Census, now: nat) returns (plan: FloorPlan, ratio: nat)
    ensures IsPlan(plan, c.terms.targets, census, ratio)
    ensures SetCensus(c, census, now) ==
            if !c.censusSet && now < c.donationEnd
            then Some(c.(censusSet := true, floorAmounts := plan.amounts,
                         floorBalance := c.floorBalance + plan.drawCategory + plan.drawMain))
            else None
  {
    plan := PlanFloor(c.terms.targets, census);
    ratio := PlanIsPlan(c.terms.targets, census);
  }

  // ----- A created campaign, in its own numbers -----------------------------------------------------

  /** The terms and the dates of a campaign created at `start`. */
  predicate CreatedAt(c: Campaign, start: nat) {
    && c.terms.targets == Bands(50_000_000, 150_000_000, 300_000_000)
    && c.terms.capMultiplier == 3 && c.terms.minPayout == 1_000_000 && c.terms.interval == 7_776_000_000
    && c.claimEnd == start + 1_814_400_000 && c.donationEnd == start + 2_592_000_000
  }

  lemma TermsInRun(start: nat, steps: seq<Step>)
    ensures CreatedAt(Run(Start(start), steps).c, start)
  {
    RunGrows(Start(start), steps);
  }

  /** In any run, a newcomer is turned away from 21 days after the creation on, and a round can be opened 30 days after
      the creation, and 90 days after the one before. */
  lemma Calendar(start: nat, steps: seq<Step>, pass: Pass)
    ensures var w := Run(Start(start), steps);
            && (Offer(w.c, pass, w.now) == Refused(WindowClosed)
                <==> pass !in w.c.applications && w.now >= start + 1_814_400_000)
            && EffectiveRound(w.c, w.now) ==
               w.c.round + if w.now >= (if w.c.round == 0 then start + 2_592_000_000
                                        else w.c.finalizedAt + 7_776_000_000) then 1 else 0
  {
    TermsInRun(start, steps);
  }

  /** Micro-USDC owed to recipients at the full targets of a created campaign. */
  function OwedTo(n: Bands): nat {
    50_000_000 * n.one + 150_000_000 * n.two + 300_000_000 * n.three
  }

  function Target(band: nat): nat {
    if band == 1 then 50_000_000 else if band == 2 then 150_000_000 else 300_000_000
  }

  lemma PaidAreOwed(c: Campaign, pass: Pass)
    requires Solvent(c) && pass in c.applications && !c.applications[pass].excluded
    ensures Recipients(c) > 0
  {
    CountsInclude(c, pass);
  }

  /** In any run of a created campaign, the payout of a claim that opens a round is the share its band's target has of
      the pool, or of three times what is owed if that is less; and the pool holds a dollar for every recipient. */
  lemma OpeningPayout(start: nat, steps: seq<Step>, pass: Pass, evidence: Evidence, claimed: Claimed)
    requires var w := Run(Start(start), steps);
      Claim(w.c, pass, evidence, w.now) == Ok(claimed) && claimed.payout.Some? && claimed.next.round != w.c.round
    ensures var w, n := Run(Start(start), steps), claimed.next.verifiedCounts;
            var owed := OwedTo(n);
            && owed > 0 && pass in claimed.next.applications
            && IsShare(claimed.payout.value, Target(claimed.next.applications[pass].band),
                       if w.c.balance < 3 * owed then w.c.balance else 3 * owed, owed)
            && w.c.balance >= 1_000_000 * (n.one + n.two + n.three)
  {
    var w := Run(Start(start), steps);
    StartIsInv(start);
    RunKeepsInv(Start(start), steps);
    TermsInRun(start, steps);
    ClaimIsFunded(w.c, pass, evidence, w.now);
    ClaimedAmounts(w.c, pass, evidence, w.now, claimed);
    OpeningAmounts(w.c, pass, evidence, w.now, start, claimed);
  }

  lemma OpeningAmounts(c: Campaign, pass: Pass, evidence: Evidence, now: nat, start: nat, claimed: Claimed)
    requires CreatedAt(c, start) && Claim(c, pass, evidence, now) == Ok(claimed) && claimed.payout.Some?
    requires Solvent(claimed.next) && pass in claimed.next.applications && claimed.next.terms == c.terms
    requires IsOfBand(claimed.payout.value, claimed.next.payouts, claimed.next.applications[pass].band)
    requires c.balance >= c.terms.minPayout * Recipients(claimed.next)
    requires SharesOf(claimed.next.(balance := c.balance), claimed.next.payouts)
    ensures var n := claimed.next.verifiedCounts;
            && OwedTo(n) > 0 && c.balance >= 1_000_000 * (n.one + n.two + n.three)
            && IsShare(claimed.payout.value, Target(claimed.next.applications[pass].band),
                       if c.balance < 3 * OwedTo(n) then c.balance else 3 * OwedTo(n), OwedTo(n))
  {
    ClaimCut(c, pass, evidence, now, claimed);
    NotExcluded(c, pass, evidence, now, claimed);
    PaidAreOwed(claimed.next, pass);
  }

  lemma NotExcluded(c: Campaign, pass: Pass, evidence: Evidence, now: nat, claimed: Claimed)
    requires Claim(c, pass, evidence, now) == Ok(claimed)
    ensures pass in claimed.next.applications && !claimed.next.applications[pass].excluded
  {
    ClaimCut(c, pass, evidence, now, claimed);
    FinalizeMovesRound(Admit(c, pass, evidence, now).value, now);
    PayRecords(Opened(c, pass, evidence, now), pass, WillPayFloor(c, pass), pass !in c.applications, claimed);
  }

  // ----- The amounts of a round stay ------------------------------------------------------------------

  lemma StepKeepsAmounts(w: World, step: Step)
    requires Inv(w)
    ensures var d := Apply(w, step); d.c.round >= w.c.round && (d.c.round == w.c.round ==> d.c.payouts == w.c.payouts)
  {
    if step.Claiming? {
      var r := Claim(w.c, step.pass, step.evidence, w.now);
      if r.Ok? {
        ClaimedAmounts(w.c, step.pass, step.evidence, w.now, r.value);
      }
    }
  }

  /** What a round pays does not change while it lasts, whatever happens. */
  lemma {:induction false} AmountsStayInRound(w: World, steps: seq<Step>)
    requires Inv(w)
    ensures var d := Run(w, steps); d.c.round >= w.c.round && (d.c.round == w.c.round ==> d.c.payouts == w.c.payouts)
    decreases |steps|
  {
    if |steps| > 0 {
      StepKeepsInv(w, steps[0]);
      StepKeepsAmounts(w, steps[0]);
      AmountsStayInRound(Apply(w, steps[0]), steps[1..]);
    }
  }

  // ----- Sweeping what is left ------------------------------------------------------------------------

  /** The rest of the floor budget can be returned once, after the donations end, if there was a census. */
  lemma FloorReturned(w: World)
    ensures var d := Apply(w, ReturningFloor);
            if w.c.censusSet && !w.c.floorBudgetReturned && w.now >= w.c.donationEnd
            then d == w.(c := w.c.(floorBudgetReturned := true, floorBalance := 0))
            else d == w
  {
  }

  /** The pool can be swept once, after the floors were returned: at the last early return or where nobody was owed
      anything, and else an interval after the last round, or after the donations. */
  lemma Swept(w: World)
    ensures var d := Apply(w, Sweeping);
            if !w.c.closed && w.c.floorBudgetReturned
               && (w.c.sweepEligible
                   || w.now >= (if w.c.round == 0 then w.c.donationEnd else w.c.finalizedAt) + w.c.terms.interval)
            then d == w.(c := w.c.(closed := true, balance := 0), swept := w.swept + w.c.balance)
            else d == w
  {
  }

  /** Without a census by the end of the donations there is none, no floor budget to return, and no sweep. */
  predicate Stuck(w: World) {
    !w.c.censusSet && w.now >= w.c.donationEnd && !w.c.floorBudgetReturned && !w.c.closed
  }

  lemma StepKeepsStuck(w: World, step: Step)
    requires Stuck(w)
    ensures Stuck(Apply(w, step))
  {
    if step.Claiming? {
      var r := Claim(w.c, step.pass, step.evidence, w.now);
      if r.Ok? {
        ClaimKeepsFlags(w.c, step.pass, step.evidence, w.now, r.value);
      }
    }
  }

  lemma ClaimKeepsFlags(c: Campaign, pass: Pass, evidence: Evidence, now: nat, claimed: Claimed)
    requires Claim(c, pass, evidence, now) == Ok(claimed)
    ensures var d := claimed.next;
            && d.censusSet == c.censusSet && d.floorBudgetReturned == c.floorBudgetReturned
            && d.closed == c.closed && d.donationEnd == c.donationEnd
  {
    var admitted := Admit(c, pass, evidence, now).value;
    FinalizedRound(admitted, now);
  }

  lemma {:induction false} RunKeepsStuck(w: World, steps: seq<Step>)
    requires Stuck(w)
    ensures Stuck(Run(w, steps))
    decreases |steps|
  {
    if |steps| > 0 {
      StepKeepsStuck(w, steps[0]);
      RunKeepsStuck(Apply(w, steps[0]), steps[1..]);
    }
  }

  predicate ReturnedAfterCensus(w: World) {
    w.c.floorBudgetReturned ==> w.c.censusSet
  }

  lemma {:induction false} RunReturnsAfterCensus(w: World, steps: seq<Step>)
    requires ReturnedAfterCensus(w)
    ensures ReturnedAfterCensus(Run(w, steps))
    decreases |steps|
  {
    if |steps| > 0 {
      var step := steps[0];
      if step.Claiming? {
        var r := Claim(w.c, step.pass, step.evidence, w.now);
        if r.Ok? {
          ClaimKeepsFlags(w.c, step.pass, step.evidence, w.now, r.value);
        }
      }
      RunReturnsAfterCensus(Apply(w, step), steps[1..]);
    }
  }

  /** Once there was a census, waiting is enough. */
  lemma CountedCanBeSwept(w: World) returns (later: seq<Step>)
    requires w.c.censusSet
    ensures Run(w, later).c.closed
  {
    var wait := Tick(w.c.donationEnd + w.c.finalizedAt + w.c.terms.interval);
    var waited := Apply(w, wait);
    var returned := Apply(waited, ReturningFloor);
    var swept := Apply(returned, Sweeping);
    FloorReturned(waited);
    Swept(returned);
    RunSnoc(w, [], wait);
    RunSnoc(w, [] + [wait], ReturningFloor);
    RunSnoc(w, [] + [wait] + [ReturningFloor], Sweeping);
    later := [] + [wait] + [ReturningFloor] + [Sweeping];
  }

  lemma RunCons(w: World, first: Step, rest: seq<Step>)
    ensures Run(w, [first] + rest) == Run(Apply(w, first), rest)
  {
    assert ([first] + rest)[1..] == rest;
  }

  lemma SweptAlready(w: World)
    requires w.c.closed
    ensures exists later :: Run(w, later).c.closed
  {
    assert Run(w, []) == w;
  }

  lemma CountedSweepable(w: World)
    requires w.c.censusSet
    ensures exists later :: Run(w, later).c.closed
  {
    var later := CountedCanBeSwept(w);
  }

  lemma EmptyCensusCounts(w: World)
    requires !w.c.closed && w.now < w.c.donationEnd && !w.c.floorBudgetReturned
    ensures Apply(w, Counting(Census(Bands(0, 0, 0), 0, 0))).c.censusSet
  {
  }

  lemma CountableSweepable(w: World)
    requires !w.c.closed && w.now < w.c.donationEnd && !w.c.floorBudgetReturned
    ensures exists later :: Run(w, later).c.closed
  {
    var census := Counting(Census(Bands(0, 0, 0), 0, 0));
    EmptyCensusCounts(w);
    var later := CountedCanBeSwept(Apply(w, census));
    RunCons(w, census, later);
  }

  lemma StuckForGood(w: World)
    requires Stuck(w)
    ensures !exists later :: Run(w, later).c.closed
  {
    forall later ensures !Run(w, later).c.closed {
      RunKeepsStuck(w, later);
    }
  }

  lemma SweepableFrom(w: World)
    requires ReturnedAfterCensus(w)
    ensures (exists later :: Run(w, later).c.closed) <==> w.c.closed || w.c.censusSet || w.now < w.c.donationEnd
  {
    if w.c.closed {
      SweptAlready(w);
    } else if w.c.censusSet {
      CountedSweepable(w);
    } else if w.now < w.c.donationEnd {
      CountableSweepable(w);
    } else {
      StuckForGood(w);
    }
  }

  /** What is left of a created campaign can still be swept exactly if it was swept, was counted, or can still be
      counted: a campaign without a census by the end of the donations keeps its residue for good. */
  lemma SweepableIff(start: nat, steps: seq<Step>)
    ensures var w := Run(Start(start), steps);
            (exists later :: Run(w, later).c.closed) <==> w.c.closed || w.c.censusSet || w.now < w.c.donationEnd
  {
    RunReturnsAfterCensus(Start(start), steps);
    SweepableFrom(Run(Start(start), steps));
  }

  /** There is such a campaign with money in it. */
  lemma StuckExample(amount: nat) returns (steps: seq<Step>, w: World)
    ensures w == Run(Start(0), steps) && w.c.balance == amount && Stuck(w)
  {
    RunSnoc(Start(0), [], Depositing(amount));
    RunSnoc(Start(0), [] + [Depositing(amount)], Tick(DONATION_PERIOD));
    steps := [] + [Depositing(amount)] + [Tick(DONATION_PERIOD)];
    w := Apply(Apply(Start(0), Depositing(amount)), Tick(DONATION_PERIOD));
  }
}

/** The claim entry of contracts/sources/campaign.move: first registration, the round finalisation that a
    claim performs when its boundary has passed, the floor payment and the round payout, with the other
    entries that touch the same fields. One entry call is one step; an abort leaves the campaign as it was. */
module CampaignContract {
  import opened Prelude

  type Pass = string

  /** One number for each of the three severity bands. */
  datatype Bands = Bands(one: nat, two: nat, three: nat) {
    function At(band: nat): nat {
      if band == 1 then one else if band == 2 then two else three
    }

    function Plus(band: nat): Bands {
      if band == 1 then this.(one := one + 1)
      else if band == 2 then this.(two := two + 1)
      else this.(three := three + 1)
    }

    function Minus(band: nat): Bands
      requires At(band) >= 1
    {
      if band == 1 then this.(one := one - 1)
      else if band == 2 then this.(two := two - 1)
      else this.(three := three - 1)
    }
  }

  function Weighted(counts: Bands, amounts: Bands): nat {
    counts.one * amounts.one + counts.two * amounts.two + counts.three * amounts.three
  }

  datatype Terms = Terms(targets: Bands, capMultiplier: nat, interval: nat, minPayout: nat)

  datatype Application = Application(
    band: nat, verified: bool, verifiedInRound: nat, floorClaimed: bool, excluded: bool)

  datatype Campaign = Campaign(
    terms: Terms, donationEnd: nat, claimEnd: nat,
    censusSet: bool, floorBudgetReturned: bool, floorAmounts: Bands, floorBalance: nat,
    balance: nat, round: nat, finalizedAt: nat, payouts: Bands, verifiedCounts: Bands,
    sweepEligible: bool, closed: bool, paused: bool,
    applications: map<Pass, Application>, payoutKeys: set<(Pass, nat)>)

  const DONATION_PERIOD: nat := 2_592_000_000
  const CLAIM_PERIOD: nat := 1_814_400_000
  const TERMS: Terms := Terms(Bands(50_000_000, 150_000_000, 300_000_000), 3, 7_776_000_000, 1_000_000)

  function Created(now: nat): Campaign {
    Campaign(TERMS, now + DONATION_PERIOD, now + CLAIM_PERIOD, false, false, Bands(0, 0, 0), 0,
             0, 0, 0, Bands(0, 0, 0), Bands(0, 0, 0), false, false, false, map[], {})
  }

  // ----- The claim entry -------------------------------------------------------------------------

  /** What the identity registry, the leaf with its proof, and the pass say about the caller. */
  datatype Evidence = Evidence(identityVerified: bool, leafAccepted: bool, band: nat)

  datatype Abort =
    | Paused | Closed | IdentityNotVerified | ClaimWindowClosed | LeafRejected | NotVerified | Excluded
    | FloorUnfunded | PayoutUnfunded | NothingToClaim

  /** A claim that went through: the campaign after it, and what it paid. */
  datatype Claimed = Claimed(next: Campaign, floor: Option<nat>, payout: Option<nat>)

  predicate WillPayFloor(c: Campaign, pass: Pass) {
    && (pass in c.applications ==> !c.applications[pass].floorClaimed)
    && c.censusSet && !c.floorBudgetReturned
  }

  predicate BoundaryReached(c: Campaign, now: nat) {
    if c.round == 0 then now >= c.donationEnd else now >= c.finalizedAt + c.terms.interval
  }

  function Register(c: Campaign, pass: Pass, band: nat): Campaign {
    c.(applications := c.applications[pass := Application(band, true, c.round, false, false)],
       verifiedCounts := c.verifiedCounts.Plus(band))
  }

  function Admit(c: Campaign, pass: Pass, evidence: Evidence, now: nat): Result<Campaign, Abort> {
    var first := pass !in c.applications;
    if c.paused then Err(Paused)
    else if c.closed then Err(Closed)
    else if (first || WillPayFloor(c, pass)) && !evidence.identityVerified then Err(IdentityNotVerified)
    else if first then
      if now >= c.claimEnd then Err(ClaimWindowClosed)
      else if !evidence.leafAccepted || !(1 <= evidence.band <= 3) then Err(LeafRejected)
      else Ok(Register(c, pass, evidence.band))
    else if !c.applications[pass].verified then Err(NotVerified)
    else if c.applications[pass].excluded then Err(Excluded)
    else Ok(c)
  }

  /** The early return of the finalisation: too little per recipient to open a round. */
  predicate PoolTooSmall(c: Campaign) {
    var eligible := c.verifiedCounts.one + c.verifiedCounts.two + c.verifiedCounts.three;
    eligible > 0 && c.balance < c.terms.minPayout * eligible
  }

  lemma DivisionBelow(a: nat, n: nat)
    requires n > 0
    ensures 0 <= a / n && a / n * n <= a
  {
  }

  /** A band's target scaled by what is available over the whole liability, rounded down. */
  function ShareOf(target: nat, available: nat, liability: nat): (share: nat)
    requires liability > 0
    ensures share * liability <= target * available
  {
    var scaled: nat := target * available;
    DivisionBelow(scaled, liability);
    scaled / liability
  }

  function RoundPayouts(c: Campaign): Bands {
    var liability := Weighted(c.verifiedCounts, c.terms.targets);
    if liability == 0 then Bands(0, 0, 0)
    else
      var cap := liability * c.terms.capMultiplier;
      var available := if c.balance > cap then cap else c.balance;
      Bands(ShareOf(c.terms.targets.one, available, liability),
            ShareOf(c.terms.targets.two, available, liability),
            ShareOf(c.terms.targets.three, available, liability))
  }

  function OpenRound(c: Campaign, now: nat, payouts: Bands, noLiability: bool): Campaign {
    c.(round := c.round + 1, finalizedAt := now, payouts := payouts, sweepEligible := noLiability)
  }

  function FinalizeRound(c: Campaign, now: nat): Campaign {
    if PoolTooSmall(c) then c.(sweepEligible := true)
    else OpenRound(c, now, RoundPayouts(c), Weighted(c.verifiedCounts, c.terms.targets) == 0)
  }

  function LazyFinalize(c: Campaign, now: nat): Campaign {
    if BoundaryReached(c, now) then FinalizeRound(c, now) else c
  }

  function PayFloor(c: Campaign, pass: Pass): Result<Campaign, Abort>
    requires pass in c.applications
  {
    var application := c.applications[pass];
    var amount := c.floorAmounts.At(application.band);
    if c.floorBalance < amount then Err(FloorUnfunded)
    else Ok(c.(applications := c.applications[pass := application.(floorClaimed := true)],
               floorBalance := c.floorBalance - amount))
  }

  predicate PayoutDue(c: Campaign, pass: Pass)
    requires pass in c.applications
  {
    c.round >= 1 && c.applications[pass].verifiedInRound < c.round && (pass, c.round) !in c.payoutKeys
  }

  function PayPayout(c: Campaign, pass: Pass): Result<Campaign, Abort>
    requires pass in c.applications
  {
    var amount := c.payouts.At(c.applications[pass].band);
    if c.balance < amount then Err(PayoutUnfunded)
    else Ok(c.(payoutKeys := c.payoutKeys + {(pass, c.round)}, balance := c.balance - amount))
  }

  /** The two payments, on a campaign the pass is registered in and the boundary is dealt with. */
  function Pay(c: Campaign, pass: Pass, payFloor: bool, first: bool): Result<Claimed, Abort>
    requires pass in c.applications
  {
    var band := c.applications[pass].band;
    var floored := if payFloor then PayFloor(c, pass) else Ok(c);
    if floored.Err? then Err(floored.error)
    else
      var floor := if payFloor then Some(c.floorAmounts.At(band)) else None;
      var d := floored.value;
      if !PayoutDue(d, pass) then
        if first || payFloor then Ok(Claimed(d, floor, None)) else Err(NothingToClaim)
      else
        var paid := PayPayout(d, pass);
        if paid.Err? then Err(paid.error) else Ok(Claimed(paid.value, floor, Some(c.payouts.At(band))))
  }

  function Claim(c: Campaign, pass: Pass, evidence: Evidence, now: nat): Result<Claimed, Abort> {
    var admitted := Admit(c, pass, evidence, now);
    if admitted.Err? then Err(admitted.error)
    else Pay(LazyFinalize(admitted.value, now), pass, WillPayFloor(c, pass), pass !in c.applications)
  }

  // ----- The other entries on the same fields ----------------------------------------------------

  /** The administrator removes a recipient, who no longer counts towards the next round. */
  function Exclude(c: Campaign, pass: Pass): Option<Campaign> {
    if c.closed || pass !in c.applications || c.applications[pass].excluded then None
    else
      var application := c.applications[pass];
      var excluded := c.(applications := c.applications[pass := application.(excluded := true)]);
      if !application.verified || application.band < 1 then Some(excluded)
      else if c.verifiedCounts.At(application.band) == 0 then None
      else Some(excluded.(verifiedCounts := c.verifiedCounts.Minus(application.band)))
  }

  /** What the census counted, and what the two pools could give when it was applied. */
  datatype Census = Census(registered: Bands, categoryBalance: nat, mainDisposable: nat)

  datatype FloorPlan = FloorPlan(amounts: Bands, drawCategory: nat, drawMain: nat)

  const BPS: nat := 10_000
  const FLOOR_TARGET_RATIO_BPS: nat := 5_000
  const CATEGORY_ANNUAL_EVENT_DIVISOR: nat := 5
  const FLOOR_MAIN_SHARE_BPS: nat := 2_000

  function Min(a: nat, b: nat): nat {
    if a <= b then a else b
  }

  /** How many ten-thousandths of its target each band gets from the budget. */
  function FloorRatio(budget: nat, liability: nat): nat
    requires liability > 0
  {
    Min(ShareOf(budget, BPS, liability), FLOOR_TARGET_RATIO_BPS)
  }

  /** What is drawn from the pools, and the floor of each band. */
  function PlanFloor(targets: Bands, census: Census): FloorPlan {
    var liability := Weighted(census.registered, targets);
    if liability == 0 then FloorPlan(Bands(0, 0, 0), 0, 0)
    else
      var target := ShareOf(liability, FLOOR_TARGET_RATIO_BPS, BPS);
      var drawCategory := Min(target, census.categoryBalance / CATEGORY_ANNUAL_EVENT_DIVISOR);
      var drawMain := Min(target - drawCategory, ShareOf(census.mainDisposable, FLOOR_MAIN_SHARE_BPS, BPS));
      var ratio := FloorRatio(drawCategory + drawMain, liability);
      FloorPlan(Bands(ShareOf(targets.one, ratio, BPS), ShareOf(targets.two, ratio, BPS),
                      ShareOf(targets.three, ratio, BPS)), drawCategory, drawMain)
  }

  function CountFloor(c: Campaign, plan: FloorPlan): Campaign {
    c.(censusSet := true, floorAmounts := plan.amounts,
       floorBalance := c.floorBalance + plan.drawCategory + plan.drawMain)
  }

  function SetCensus(c: Campaign, census: Census, now: nat): Option<Campaign> {
    if c.censusSet || now >= c.donationEnd then None
    else Some(CountFloor(c, PlanFloor(c.terms.targets, census)))
  }

  function ReturnFloorBudget(c: Campaign, now: nat): Option<Campaign> {
    if now < c.donationEnd || !c.censusSet || c.floorBudgetReturned then None
    else Some(c.(floorBudgetReturned := true, floorBalance := 0))
  }

  function SweepResidual(c: Campaign, now: nat): Option<Campaign> {
    var since := if c.round == 0 then c.donationEnd else c.finalizedAt;
    if c.closed || !c.floorBudgetReturned || !(c.sweepEligible || now >= since + c.terms.interval) then None
    else Some(c.(closed := true, balance := 0))
  }

  // ----- Sums over the applications --------------------------------------------------------------

  ghost function Total(amounts: map<Pass, nat>): nat {
    if amounts == map[] then 0
    else
      var pass :| pass in amounts;
      amounts[pass] + Total(amounts - {pass})
  }

  lemma {:induction false} TotalWithout(amounts: map<Pass, nat>, pass: Pass)
    requires pass in amounts
    ensures Total(amounts) == amounts[pass] + Total(amounts - {pass})
    decreases |amounts|
  {
    var first :| first in amounts && Total(amounts) == amounts[first] + Total(amounts - {first});
    if first != pass {
      assert |amounts - {first}| < |amounts|;
      TotalWithout(amounts - {first}, pass);
      assert |amounts - {pass}| < |amounts|;
      TotalWithout(amounts - {pass}, first);
      assert amounts - {first} - {pass} == amounts - {pass} - {first};
    }
  }

  lemma TotalUpdated(amounts: map<Pass, nat>, pass: Pass, amount: nat)
    ensures pass in amounts ==> Total(amounts[pass := amount]) + amounts[pass] == Total(amounts) + amount
    ensures pass !in amounts ==> Total(amounts[pass := amount]) == Total(amounts) + amount
  {
    TotalWithout(amounts[pass := amount], pass);
    if pass in amounts {
      TotalWithout(amounts, pass);
      assert amounts[pass := amount] - {pass} == amounts - {pass};
    } else {
      assert amounts[pass := amount] - {pass} == amounts;
    }
  }

  lemma {:induction false} TotalMonotone(low: map<Pass, nat>, high: map<Pass, nat>)
    requires low.Keys == high.Keys && forall pass :: pass in low ==> low[pass] <= high[pass]
    ensures Total(low) <= Total(high)
    decreases |low|
  {
    if low != map[] {
      var pass :| pass in low;
      TotalWithout(low, pass);
      TotalWithout(high, pass);
      assert (low - {pass}).Keys == (high - {pass}).Keys;
      assert |low - {pass}| < |low|;
      TotalMonotone(low - {pass}, high - {pass});
    } else {
      assert high.Keys == {};
      assert high == map[];
    }
  }

  // ----- Solvency --------------------------------------------------------------------------------

  /** What every recipient who still counts would get at the given amounts. */
  ghost function Entitled(applications: map<Pass, Application>, amounts: Bands): map<Pass, nat> {
    map pass | pass in applications ::
      if applications[pass].excluded then 0 else amounts.At(applications[pass].band)
  }

  /** What the current round can still be asked to pay to each recipient. */
  ghost function Outstanding(c: Campaign): map<Pass, nat> {
    map pass | pass in c.applications ::
      if !c.applications[pass].excluded && PayoutDue(c, pass) then c.payouts.At(c.applications[pass].band) else 0
  }

  ghost predicate CountsMatch(c: Campaign) {
    forall amounts: Bands :: Total(Entitled(c.applications, amounts)) == Weighted(c.verifiedCounts, amounts)
  }

  predicate WellFormed(c: Campaign) {
    && (forall pass :: pass in c.applications ==>
          1 <= c.applications[pass].band <= 3 && c.applications[pass].verified
          && c.applications[pass].verifiedInRound <= c.round)
    && (forall key :: key in c.payoutKeys ==> key.0 in c.applications && key.1 <= c.round)
  }

  /** The recipients counted are those registered and not excluded, and the pool can pay all of them. */
  ghost predicate Solvent(c: Campaign) {
    && WellFormed(c)
    && CountsMatch(c)
    && (!c.closed ==> Total(Outstanding(c)) <= c.balance)
  }

  /** Paying `n` recipients a share each, where a share times the liability is within the target's part. */
  lemma ScaledShare(n: nat, share: nat, target: nat, available: nat, liability: nat)
    requires share * liability <= target * available
    ensures (n * share) * liability <= (n * target) * available
  {
    assert n * (share * liability) <= n * (target * available);
  }

  lemma Distribute(a: int, b: int, c: int, n: int)
    ensures (a + b + c) * n == a * n + b * n + c * n
  {
  }

  /** Shares that are each within their target's part are so together, weighted by the recipients. */
  lemma WeightedShares(counts: Bands, targets: Bands, shares: Bands, available: nat, liability: nat)
    requires shares.one * liability <= targets.one * available
    requires shares.two * liability <= targets.two * available
    requires shares.three * liability <= targets.three * available
    ensures Weighted(counts, shares) * liability <= Weighted(counts, targets) * available
  {
    ScaledShare(counts.one, shares.one, targets.one, available, liability);
    ScaledShare(counts.two, shares.two, targets.two, available, liability);
    ScaledShare(counts.three, shares.three, targets.three, available, liability);
    Distribute(counts.one * targets.one, counts.two * targets.two, counts.three * targets.three, available);
    Distribute(counts.one * shares.one, counts.two * shares.two, counts.three * shares.three, liability);
  }

  lemma SharesFit(counts: Bands, targets: Bands, shares: Bands, available: nat)
    requires Weighted(counts, targets) > 0
    requires shares.one * Weighted(counts, targets) <= targets.one * available
    requires shares.two * Weighted(counts, targets) <= targets.two * available
    requires shares.three * Weighted(counts, targets) <= targets.three * available
    ensures Weighted(counts, shares) <= available
  {
    var liability := Weighted(counts, targets);
    WeightedShares(counts, targets, shares, available, liability);
    Cancel(Weighted(counts, shares), available, liability);
  }

  lemma FloorRatioFits(budget: nat, liability: nat)
    requires liability > 0
    ensures liability * FloorRatio(budget, liability) <= BPS * budget
  {
    var full := ShareOf(budget, BPS, liability);
    ScaledShare(liability, FloorRatio(budget, liability), full, 1, 1);
    assert liability * full == full * liability;
  }

  /** The floors of everyone the census counted are within what was drawn for them, and the draw is within
      half of the targets, a fifth of the category pool and a fifth of what the main pool can spare. */
  lemma FloorsFitBudget(targets: Bands, census: Census)
    ensures var plan := PlanFloor(targets, census);
            && Weighted(census.registered, plan.amounts) <= plan.drawCategory + plan.drawMain
            && 2 * (plan.drawCategory + plan.drawMain) <= Weighted(census.registered, targets)
            && 5 * plan.drawCategory <= census.categoryBalance && 5 * plan.drawMain <= census.mainDisposable
  {
    var plan, liability := PlanFloor(targets, census), Weighted(census.registered, targets);
    if liability > 0 {
      var budget := plan.drawCategory + plan.drawMain;
      var ratio := FloorRatio(budget, liability);
      WeightedShares(census.registered, targets, plan.amounts, ratio, BPS);
      FloorRatioFits(budget, liability);
      Cancel(Weighted(census.registered, plan.amounts), budget, BPS);
    }
  }

  lemma Cancel(a: nat, b: nat, n: nat)
    requires a * n <= n * b && n > 0
    ensures a <= b
  {
    if a > b {
      ScaledAbove(a, b, n);
    }
  }

  lemma ScaledAbove(a: nat, b: nat, n: nat)
    requires a > b && n > 0
    ensures a * n > b * n
  {
    assert a * n == b * n + (a - b) * n;
  }

  lemma RoundPayoutsFit(c: Campaign)
    ensures Weighted(c.verifiedCounts, RoundPayouts(c)) <= c.balance
  {
    var liability := Weighted(c.verifiedCounts, c.terms.targets);
    if liability > 0 {
      var cap := liability * c.terms.capMultiplier;
      var available := if c.balance > cap then cap else c.balance;
      SharesFit(c.verifiedCounts, c.terms.targets, RoundPayouts(c), available);
    }
  }

  // ----- Every entry keeps the campaign solvent --------------------------------------------------

  lemma RegisterKeepsCounts(c: Campaign, pass: Pass, band: nat)
    requires CountsMatch(c) && pass !in c.applications && 1 <= band <= 3
    ensures CountsMatch(Register(c, pass, band))
  {
    var d := Register(c, pass, band);
    forall amounts: Bands
      ensures Total(Entitled(d.applications, amounts)) == Weighted(d.verifiedCounts, amounts)
    {
      TotalUpdated(Entitled(c.applications, amounts), pass, amounts.At(band));
      assert Entitled(d.applications, amounts) == Entitled(c.applications, amounts)[pass := amounts.At(band)];
      CountOneMore(c.verifiedCounts, amounts, band);
    }
  }

  lemma CountOneMore(counts: Bands, amounts: Bands, band: nat)
    ensures Weighted(counts.Plus(band), amounts) == Weighted(counts, amounts) + amounts.At(band)
  {
    Distribute(counts.one, 1, 0, amounts.one);
    Distribute(counts.two, 1, 0, amounts.two);
    Distribute(counts.three, 1, 0, amounts.three);
  }

  lemma CountOneLess(counts: Bands, amounts: Bands, band: nat)
    requires 1 <= band <= 3 && counts.At(band) >= 1
    ensures Weighted(counts.Minus(band), amounts) + amounts.At(band) == Weighted(counts, amounts)
  {
    CountOneMore(counts.Minus(band), amounts, band);
  }

  lemma RegisterKeepsSolvent(c: Campaign, pass: Pass, band: nat)
    requires Solvent(c) && pass !in c.applications && 1 <= band <= 3
    ensures Solvent(Register(c, pass, band))
  {
    var d := Register(c, pass, band);
    RegisterKeepsCounts(c, pass, band);
    TotalUpdated(Outstanding(c), pass, 0);
    assert Outstanding(d) == Outstanding(c)[pass := 0];
  }

  lemma OutstandingWithinEntitled(c: Campaign)
    ensures Total(Outstanding(c)) <= Total(Entitled(c.applications, c.payouts))
  {
    TotalMonotone(Outstanding(c), Entitled(c.applications, c.payouts));
  }

  lemma OpenRoundKeepsSolvent(c: Campaign, now: nat, payouts: Bands, noLiability: bool)
    requires Solvent(c) && Weighted(c.verifiedCounts, payouts) <= c.balance
    ensures Solvent(OpenRound(c, now, payouts, noLiability))
  {
    var d := OpenRound(c, now, payouts, noLiability);
    OutstandingWithinEntitled(d);
    assert Total(Entitled(c.applications, payouts)) == Weighted(c.verifiedCounts, payouts);
    SameRecipients(c, d);
  }

  lemma SameRecipients(c: Campaign, d: Campaign)
    requires CountsMatch(c) && d.applications == c.applications && d.verifiedCounts == c.verifiedCounts
    ensures CountsMatch(d)
  {
  }

  lemma FlagKeepsSolvent(c: Campaign)
    requires Solvent(c)
    ensures Solvent(c.(sweepEligible := true))
  {
    var d := c.(sweepEligible := true);
    SameRecipients(c, d);
    assert Outstanding(d) == Outstanding(c);
  }

  lemma FinalizeKeepsSolvent(c: Campaign, now: nat)
    requires Solvent(c)
    ensures Solvent(FinalizeRound(c, now))
  {
    if PoolTooSmall(c) {
      FlagKeepsSolvent(c);
    } else {
      RoundPayoutsFit(c);
      OpenRoundKeepsSolvent(c, now, RoundPayouts(c), Weighted(c.verifiedCounts, c.terms.targets) == 0);
    }
  }

  lemma PayFloorKeepsSolvent(c: Campaign, pass: Pass)
    requires Solvent(c) && pass in c.applications && PayFloor(c, pass).Ok?
    ensures Solvent(PayFloor(c, pass).value)
  {
    var d := PayFloor(c, pass).value;
    forall amounts: Bands
      ensures Total(Entitled(d.applications, amounts)) == Weighted(d.verifiedCounts, amounts)
    {
      assert Entitled(d.applications, amounts) == Entitled(c.applications, amounts);
    }
    assert Outstanding(d) == Outstanding(c);
  }

  lemma PayoutIsFunded(c: Campaign, pass: Pass)
    requires Solvent(c) && !c.closed && pass in c.applications && !c.applications[pass].excluded
    requires PayoutDue(c, pass)
    ensures c.payouts.At(c.applications[pass].band) <= c.balance
    ensures PayPayout(c, pass).Ok? && Solvent(PayPayout(c, pass).value)
  {
    TotalWithout(Outstanding(c), pass);
    var d := PayPayout(c, pass).value;
    TotalUpdated(Outstanding(c), pass, 0);
    assert Outstanding(d) == Outstanding(c)[pass := 0];
    assert CountsMatch(d) by {
      assert d.applications == c.applications && d.verifiedCounts == c.verifiedCounts;
    }
  }

  lemma PayKeepsSolvent(c: Campaign, pass: Pass, payFloor: bool, first: bool)
    requires Solvent(c) && !c.closed && pass in c.applications && !c.applications[pass].excluded
    ensures Pay(c, pass, payFloor, first) != Err(PayoutUnfunded)
    ensures Pay(c, pass, payFloor, first).Ok? ==> Solvent(Pay(c, pass, payFloor, first).value.next)
  {
    if payFloor && PayFloor(c, pass).Ok? {
      var d := PayFloor(c, pass).value;
      PayFloorKeepsSolvent(c, pass);
      if PayoutDue(d, pass) {
        PayoutIsFunded(d, pass);
      }
    } else if !payFloor && PayoutDue(c, pass) {
      PayoutIsFunded(c, pass);
    }
  }

  /** A round payout that is due is always in the pool: no claim aborts for want of it, in any campaign whose
      entries have kept it solvent so far. */
  lemma ClaimIsFunded(c: Campaign, pass: Pass, evidence: Evidence, now: nat)
    requires Solvent(c)
    ensures Claim(c, pass, evidence, now) != Err(PayoutUnfunded)
    ensures Claim(c, pass, evidence, now).Ok? ==> Solvent(Claim(c, pass, evidence, now).value.next)
  {
    var admitted := Admit(c, pass, evidence, now);
    if admitted.Ok? {
      if pass !in c.applications {
        RegisterKeepsSolvent(c, pass, evidence.band);
      }
      var d := admitted.value;
      FinalizeKeepsSolvent(d, now);
      PayKeepsSolvent(LazyFinalize(d, now), pass, WillPayFloor(c, pass), pass !in c.applications);
    }
  }

  lemma CountsInclude(c: Campaign, pass: Pass)
    requires CountsMatch(c) && pass in c.applications && !c.applications[pass].excluded
    requires 1 <= c.applications[pass].band <= 3
    ensures c.verifiedCounts.At(c.applications[pass].band) >= 1
  {
    var band := c.applications[pass].band;
    var only := Bands(0, 0, 0).Plus(band);
    TotalWithout(Entitled(c.applications, only), pass);
    assert Total(Entitled(c.applications, only)) == Weighted(c.verifiedCounts, only);
  }

  lemma ExcludeKeepsCounts(c: Campaign, pass: Pass)
    requires CountsMatch(c) && Exclude(c, pass).Some? && 1 <= c.applications[pass].band <= 3
    requires c.applications[pass].verified
    ensures CountsMatch(Exclude(c, pass).value)
  {
    var band := c.applications[pass].band;
    var d := Exclude(c, pass).value;
    forall amounts: Bands
      ensures Total(Entitled(d.applications, amounts)) == Weighted(d.verifiedCounts, amounts)
    {
      TotalUpdated(Entitled(c.applications, amounts), pass, 0);
      assert Entitled(d.applications, amounts) == Entitled(c.applications, amounts)[pass := 0];
      CountOneLess(c.verifiedCounts, amounts, band);
    }
  }

  /** Excluding a recipient never runs a count below zero, and keeps the pool solvent. */
  lemma ExcludeKeepsSolvent(c: Campaign, pass: Pass)
    requires Solvent(c)
    ensures Exclude(c, pass).Some? <==> !c.closed && pass in c.applications && !c.applications[pass].excluded
    ensures Exclude(c, pass).Some? ==> Solvent(Exclude(c, pass).value)
  {
    if !c.closed && pass in c.applications && !c.applications[pass].excluded {
      CountsInclude(c, pass);
      ExcludeKeepsCounts(c, pass);
      var d := Exclude(c, pass).value;
      TotalUpdated(Outstanding(c), pass, 0);
      assert Outstanding(d) == Outstanding(c)[pass := 0];
    }
  }

  /** The entries that leave the applications, the keys and the round as they are. */
  lemma FundsKeepSolvent(c: Campaign, d: Campaign)
    requires Solvent(c)
    requires d.applications == c.applications && d.verifiedCounts == c.verifiedCounts
    requires d.payoutKeys == c.payoutKeys && d.round == c.round && d.payouts == c.payouts
    requires d.closed || (!c.closed && d.balance >= c.balance)
    ensures Solvent(d)
  {
    SameRecipients(c, d);
    assert Outstanding(d) == Outstanding(c);
  }

  lemma CreatedIsSolvent(now: nat)
    ensures Solvent(Created(now))
  {
    var c := Created(now);
    forall amounts: Bands
      ensures Total(Entitled(c.applications, amounts)) == Weighted(c.verifiedCounts, amounts)
    {
      assert Entitled(c.applications, amounts) == map[];
    }
    assert Outstanding(c) == map[];
  }
}

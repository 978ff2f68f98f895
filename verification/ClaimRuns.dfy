/** Whole runs of a campaign: any sequence of entry calls under a clock that never goes back, with what was
    paid, and what the dapp would have offered at each point. */
module ClaimRuns {
  import opened Prelude
  import opened CampaignContract
  import opened ClaimEligibility

  datatype Payment = Floor(pass: Pass, amount: nat) | Payout(pass: Pass, round: nat, amount: nat)

  datatype World = World(now: nat, c: Campaign, paid: seq<Payment>, deposited: nat, swept: nat)

  datatype Step =
    | Tick(ms: nat)
    | Claiming(pass: Pass, evidence: Evidence)
    | Excluding(pass: Pass)
    | Depositing(amount: nat)
    | Counting(census: Census)
    | ReturningFloor
    | Sweeping

  function Payments(pass: Pass, claimed: Claimed): seq<Payment> {
    (if claimed.floor.Some? then [Floor(pass, claimed.floor.value)] else [])
    + (if claimed.payout.Some? then [Payout(pass, claimed.next.round, claimed.payout.value)] else [])
  }

  function Entered(w: World, c: Option<Campaign>): World {
    if c.Some? then w.(c := c.value) else w
  }

  /** An entry that aborts changes nothing. */
  function Apply(w: World, step: Step): World {
    match step
    case Tick(ms) => w.(now := w.now + ms)
    case Claiming(pass, evidence) =>
      var r := Claim(w.c, pass, evidence, w.now);
      if r.Ok? then w.(c := r.value.next, paid := w.paid + Payments(pass, r.value)) else w
    case Excluding(pass) => Entered(w, Exclude(w.c, pass))
    case Depositing(amount) => w.(c := w.c.(balance := w.c.balance + amount), deposited := w.deposited + amount)
    case Counting(census) => Entered(w, SetCensus(w.c, census, w.now))
    case ReturningFloor => Entered(w, ReturnFloorBudget(w.c, w.now))
    case Sweeping =>
      var r := SweepResidual(w.c, w.now);
      if r.Some? then w.(c := r.value, swept := w.swept + w.c.balance) else w
  }

  function Start(now: nat): World {
    World(now, Created(now), [], 0, 0)
  }

  function Run(w: World, steps: seq<Step>): World
    decreases |steps|
  {
    if |steps| == 0 then w else Run(Apply(w, steps[0]), steps[1..])
  }

  // ----- What one claim records ------------------------------------------------------------------

  /** An application is never lost, keeps its band and its round, and only gains marks; keys are never lost. */
  predicate Grown(c: Campaign, d: Campaign) {
    && d.terms == c.terms && d.donationEnd == c.donationEnd && d.claimEnd == c.claimEnd
    && c.payoutKeys <= d.payoutKeys
    && (forall pass :: pass in c.applications ==> Kept(c, d, pass))
  }

  predicate Kept(c: Campaign, d: Campaign, pass: Pass)
    requires pass in c.applications
  {
    && pass in d.applications
    && d.applications[pass].band == c.applications[pass].band
    && d.applications[pass].verifiedInRound == c.applications[pass].verifiedInRound
    && (c.applications[pass].floorClaimed ==> d.applications[pass].floorClaimed)
    && (c.applications[pass].excluded ==> d.applications[pass].excluded)
  }

  /** The finalisation moves the round and its amounts, and leaves the rest alone. */
  predicate OnlyRoundMoves(c: Campaign, d: Campaign) {
    && d.applications == c.applications && d.payoutKeys == c.payoutKeys && d.balance == c.balance
    && d.terms == c.terms && d.donationEnd == c.donationEnd && d.claimEnd == c.claimEnd && d.closed == c.closed
    && ((d.round == c.round && d.finalizedAt == c.finalizedAt) || d.round == c.round + 1)
  }

  lemma OpenRoundMovesRound(c: Campaign, now: nat, payouts: Bands, noLiability: bool)
    ensures OnlyRoundMoves(c, OpenRound(c, now, payouts, noLiability))
  {
  }

  lemma FinalizeMovesRound(c: Campaign, now: nat)
    ensures OnlyRoundMoves(c, LazyFinalize(c, now))
    ensures LazyFinalize(c, now).round == c.round + 1 ==> LazyFinalize(c, now).finalizedAt == now
    ensures LazyFinalize(c, now).round == c.round + 1 ==> BoundaryReached(c, now)
  {
    if BoundaryReached(c, now) && !PoolTooSmall(c) {
      OpenRoundMovesRound(c, now, RoundPayouts(c), Weighted(c.verifiedCounts, c.terms.targets) == 0);
    }
  }

  lemma RoundMoveGrows(c: Campaign, d: Campaign, e: Campaign)
    requires Grown(c, d) && OnlyRoundMoves(d, e)
    ensures Grown(c, e)
  {
    forall pass | pass in c.applications ensures Kept(c, e, pass) {
      assert Kept(c, d, pass);
    }
  }

  lemma GrownTransitive(c: Campaign, d: Campaign, e: Campaign)
    requires Grown(c, d) && Grown(d, e)
    ensures Grown(c, e)
  {
    forall pass | pass in c.applications ensures Kept(c, e, pass) {
      assert Kept(c, d, pass) && Kept(d, e, pass);
    }
  }

  lemma AdmitGrows(c: Campaign, pass: Pass, evidence: Evidence, now: nat, d: Campaign)
    requires Admit(c, pass, evidence, now) == Ok(d)
    ensures Grown(c, d) && pass in d.applications && d.payoutKeys == c.payoutKeys
    ensures d.balance == c.balance && d.round == c.round && d.finalizedAt == c.finalizedAt && d.closed == c.closed
    ensures pass !in c.applications ==> d.applications[pass].verifiedInRound == c.round && now < c.claimEnd
  {
  }

  lemma FloorRecords(c: Campaign, pass: Pass, d: Campaign)
    requires pass in c.applications && PayFloor(c, pass) == Ok(d)
    ensures Grown(c, d) && d.round == c.round && d.finalizedAt == c.finalizedAt && d.payoutKeys == c.payoutKeys
    ensures d.applications == c.applications[pass := c.applications[pass].(floorClaimed := true)]
    ensures d.balance == c.balance && d.payouts == c.payouts
  {
  }

  lemma PayoutRecords(c: Campaign, pass: Pass, d: Campaign)
    requires pass in c.applications && PayPayout(c, pass) == Ok(d)
    ensures Grown(c, d) && d.round == c.round && d.finalizedAt == c.finalizedAt && d.applications == c.applications
    ensures d.payoutKeys == c.payoutKeys + {(pass, c.round)}
    ensures d.balance == c.balance - c.payouts.At(c.applications[pass].band)
  {
  }

  /** What a claim that pays leaves behind: the floor mark, or the key of the round, neither there before. */
  lemma PayRecords(c: Campaign, pass: Pass, payFloor: bool, first: bool, paid: Claimed)
    requires pass in c.applications && Pay(c, pass, payFloor, first) == Ok(paid)
    ensures Grown(c, paid.next) && paid.next.round == c.round && paid.next.finalizedAt == c.finalizedAt
    ensures paid.next.applications[pass].excluded == c.applications[pass].excluded
    ensures paid.floor.Some? <==> payFloor
    ensures payFloor ==> paid.next.applications[pass].floorClaimed
    ensures paid.payout.None? ==> paid.next.payoutKeys == c.payoutKeys && paid.next.balance == c.balance
    ensures paid.payout.Some? ==>
              && (pass, c.round) !in c.payoutKeys && paid.next.payoutKeys == c.payoutKeys + {(pass, c.round)}
              && c.round >= 1 && c.applications[pass].verifiedInRound < c.round
              && paid.next.balance == c.balance - paid.payout.value
  {
    var d := if payFloor then PayFloor(c, pass).value else c;
    if payFloor {
      FloorRecords(c, pass, d);
    }
    if PayoutDue(d, pass) {
      PayoutRecords(d, pass, paid.next);
      GrownTransitive(c, d, paid.next);
    }
  }

  // ----- The log ---------------------------------------------------------------------------------

  predicate SameClaim(p: Payment, q: Payment) {
    p.pass == q.pass && (p.Floor? <==> q.Floor?) && (p.Payout? && q.Payout? ==> p.round == q.round)
  }

  /** A payment in the log has left its mark on the campaign. */
  predicate Recorded(c: Campaign, p: Payment) {
    && p.pass in c.applications
    && match p
       case Floor(pass, _) => c.applications[pass].floorClaimed
       case Payout(pass, round, _) =>
         (pass, round) in c.payoutKeys && round >= 1 && c.applications[pass].verifiedInRound < round
  }

  predicate AllRecorded(c: Campaign, paid: seq<Payment>) {
    forall i :: 0 <= i < |paid| ==> Recorded(c, paid[i])
  }

  predicate NoneTwice(paid: seq<Payment>) {
    forall i, j :: 0 <= i < j < |paid| ==> !SameClaim(paid[i], paid[j])
  }

  function PayoutTotal(paid: seq<Payment>): nat {
    if |paid| == 0 then 0
    else
      var last := paid[|paid| - 1];
      PayoutTotal(paid[..|paid| - 1]) + (if last.Payout? then last.amount else 0)
  }

  predicate Unrecorded(c: Campaign, p: Payment) {
    match p
    case Floor(pass, _) => pass in c.applications ==> !c.applications[pass].floorClaimed
    case Payout(pass, round, _) => (pass, round) !in c.payoutKeys
  }

  lemma RecordedGrows(c: Campaign, d: Campaign, paid: seq<Payment>)
    requires Grown(c, d) && AllRecorded(c, paid)
    ensures AllRecorded(d, paid)
  {
    forall i | 0 <= i < |paid| ensures Recorded(d, paid[i]) {
      assert Recorded(c, paid[i]) && Kept(c, d, paid[i].pass);
    }
  }

  lemma AppendNew(c: Campaign, paid: seq<Payment>, p: Payment)
    requires AllRecorded(c, paid) && NoneTwice(paid) && Unrecorded(c, p)
    ensures NoneTwice(paid + [p])
    ensures PayoutTotal(paid + [p]) == PayoutTotal(paid) + (if p.Payout? then p.amount else 0)
  {
    assert (paid + [p])[..|paid|] == paid;
    forall i | 0 <= i < |paid| ensures !SameClaim(paid[i], p) {
      assert Recorded(c, paid[i]);
    }
  }

  // ----- Every run -------------------------------------------------------------------------------

  /** Registered while the claim window was open, which a created campaign closes before its first round. */
  predicate VerifiedBeforeRounds(c: Campaign) {
    forall pass :: pass in c.applications ==> c.applications[pass].verifiedInRound == 0
  }

  predicate Timed(w: World) {
    && w.c.finalizedAt <= w.now && w.c.claimEnd < w.c.donationEnd
    && (w.c.round >= 1 ==> w.now >= w.c.donationEnd)
    && VerifiedBeforeRounds(w.c)
  }

  predicate Logged(w: World) {
    && AllRecorded(w.c, w.paid) && NoneTwice(w.paid)
    && w.c.balance + PayoutTotal(w.paid) + w.swept == w.deposited
  }

  ghost predicate Inv(w: World) {
    Solvent(w.c) && Timed(w) && Logged(w)
  }

  /** The campaign between the boundary and the payments. */
  function Opened(c: Campaign, pass: Pass, evidence: Evidence, now: nat): Campaign
    requires Admit(c, pass, evidence, now).Ok?
  {
    LazyFinalize(Admit(c, pass, evidence, now).value, now)
  }

  lemma OpenedFacts(c: Campaign, pass: Pass, evidence: Evidence, now: nat)
    requires Admit(c, pass, evidence, now).Ok?
    ensures var d := Opened(c, pass, evidence, now);
            && Grown(c, d) && pass in d.applications && d.payoutKeys == c.payoutKeys && d.balance == c.balance
            && ((d.round == c.round && d.finalizedAt == c.finalizedAt)
                || (d.round == c.round + 1 && d.finalizedAt == now && BoundaryReached(c, now)))
  {
    var d := Admit(c, pass, evidence, now).value;
    AdmitGrows(c, pass, evidence, now, d);
    FinalizeMovesRound(d, now);
    RoundMoveGrows(c, d, LazyFinalize(d, now));
    assert BoundaryReached(d, now) == BoundaryReached(c, now);
  }

  /** A claim that goes through, cut where the boundary has been dealt with. */
  lemma ClaimCut(c: Campaign, pass: Pass, evidence: Evidence, now: nat, claimed: Claimed)
    requires Claim(c, pass, evidence, now) == Ok(claimed)
    ensures Admit(c, pass, evidence, now).Ok? && Grown(c, claimed.next)
    ensures var d := Opened(c, pass, evidence, now);
            && pass in d.applications
            && Pay(d, pass, WillPayFloor(c, pass), pass !in c.applications) == Ok(claimed)
  {
    var d := Opened(c, pass, evidence, now);
    OpenedFacts(c, pass, evidence, now);
    PayRecords(d, pass, WillPayFloor(c, pass), pass !in c.applications, claimed);
    GrownTransitive(c, d, claimed.next);
  }

  lemma FloorIsNew(c: Campaign, pass: Pass, evidence: Evidence, now: nat, claimed: Claimed)
    requires Claim(c, pass, evidence, now) == Ok(claimed) && claimed.floor.Some?
    ensures Unrecorded(c, Floor(pass, claimed.floor.value)) && Recorded(claimed.next, Floor(pass, claimed.floor.value))
  {
    ClaimCut(c, pass, evidence, now, claimed);
    PayRecords(Opened(c, pass, evidence, now), pass, WillPayFloor(c, pass), pass !in c.applications, claimed);
    assert Kept(Opened(c, pass, evidence, now), claimed.next, pass);
  }

  lemma PayoutIsNew(c: Campaign, pass: Pass, evidence: Evidence, now: nat, claimed: Claimed, p: Payment)
    requires Claim(c, pass, evidence, now) == Ok(claimed) && claimed.payout.Some?
    requires p == Payout(pass, claimed.next.round, claimed.payout.value)
    ensures Unrecorded(c, p) && Recorded(claimed.next, p)
  {
    var d := Opened(c, pass, evidence, now);
    ClaimCut(c, pass, evidence, now, claimed);
    OpenedFacts(c, pass, evidence, now);
    PayRecords(d, pass, WillPayFloor(c, pass), pass !in c.applications, claimed);
    assert Kept(d, claimed.next, pass);
  }

  lemma ClaimBalance(c: Campaign, pass: Pass, evidence: Evidence, now: nat, claimed: Claimed)
    requires Claim(c, pass, evidence, now) == Ok(claimed)
    ensures claimed.next.balance + (if claimed.payout.Some? then claimed.payout.value else 0) == c.balance
  {
    ClaimCut(c, pass, evidence, now, claimed);
    OpenedFacts(c, pass, evidence, now);
    PayRecords(Opened(c, pass, evidence, now), pass, WillPayFloor(c, pass), pass !in c.applications, claimed);
  }

  /** A payout after what the same claim may just have added for the floor. */
  lemma AppendPayout(c: Campaign, paid: seq<Payment>, log: seq<Payment>, p: Payment)
    requires AllRecorded(c, paid) && NoneTwice(log) && p.Payout? && Unrecorded(c, p)
    requires log == paid || (|log| == |paid| + 1 && log[..|paid|] == paid && log[|paid|].Floor?)
    ensures NoneTwice(log + [p]) && PayoutTotal(log + [p]) == PayoutTotal(log) + p.amount
  {
    assert (log + [p])[..|log|] == log;
    forall i | 0 <= i < |log| ensures !SameClaim(log[i], p) {
      if i < |paid| {
        assert log[i] == paid[i] && Recorded(c, paid[i]);
      }
    }
  }

  /** The log after a claim: what it paid was not there before, and is recorded now. */
  lemma AppendClaimed(c: Campaign, d: Campaign, paid: seq<Payment>, pass: Pass, claimed: Claimed)
    requires AllRecorded(c, paid) && NoneTwice(paid) && Grown(c, d)
    requires claimed.floor.Some? ==>
               Unrecorded(c, Floor(pass, claimed.floor.value)) && Recorded(d, Floor(pass, claimed.floor.value))
    requires claimed.payout.Some? ==>
               && Unrecorded(c, Payout(pass, claimed.next.round, claimed.payout.value))
               && Recorded(d, Payout(pass, claimed.next.round, claimed.payout.value))
    ensures var log := paid + Payments(pass, claimed);
            && AllRecorded(d, log) && NoneTwice(log)
            && PayoutTotal(log) == PayoutTotal(paid) + (if claimed.payout.Some? then claimed.payout.value else 0)
  {
    RecordedGrows(c, d, paid);
    var log := paid;
    if claimed.floor.Some? {
      AppendNew(c, paid, Floor(pass, claimed.floor.value));
      log := paid + [Floor(pass, claimed.floor.value)];
    }
    if claimed.payout.Some? {
      AppendPayout(c, paid, log, Payout(pass, claimed.next.round, claimed.payout.value));
      log := log + [Payout(pass, claimed.next.round, claimed.payout.value)];
    }
    assert log == paid + Payments(pass, claimed);
  }

  lemma ClaimKeepsLogged(w: World, pass: Pass, evidence: Evidence, claimed: Claimed)
    requires Logged(w) && Claim(w.c, pass, evidence, w.now) == Ok(claimed)
    ensures Logged(w.(c := claimed.next, paid := w.paid + Payments(pass, claimed)))
  {
    ClaimCut(w.c, pass, evidence, w.now, claimed);
    ClaimBalance(w.c, pass, evidence, w.now, claimed);
    if claimed.floor.Some? {
      FloorIsNew(w.c, pass, evidence, w.now, claimed);
    }
    if claimed.payout.Some? {
      PayoutIsNew(w.c, pass, evidence, w.now, claimed,
                  Payout(pass, claimed.next.round, claimed.payout.value));
    }
    AppendClaimed(w.c, claimed.next, w.paid, pass, claimed);
  }

  lemma ClaimKeepsTimed(w: World, pass: Pass, evidence: Evidence, claimed: Claimed)
    requires Timed(w) && Claim(w.c, pass, evidence, w.now) == Ok(claimed)
    ensures Timed(w.(c := claimed.next, paid := w.paid + Payments(pass, claimed)))
  {
    var admitted := Admit(w.c, pass, evidence, w.now).value;
    var d := Opened(w.c, pass, evidence, w.now);
    ClaimCut(w.c, pass, evidence, w.now, claimed);
    AdmitGrows(w.c, pass, evidence, w.now, admitted);
    FinalizeMovesRound(admitted, w.now);
    OpenedFacts(w.c, pass, evidence, w.now);
    PayRecords(d, pass, WillPayFloor(w.c, pass), pass !in w.c.applications, claimed);
    assert VerifiedBeforeRounds(admitted);
    assert VerifiedBeforeRounds(claimed.next);
  }

  // ----- The other entries -----------------------------------------------------------------------

  /** Entries that leave the applications, the keys and the round alone. */
  lemma FundsKeepInv(w: World, d: World)
    requires Inv(w)
    requires d.c.applications == w.c.applications && d.c.verifiedCounts == w.c.verifiedCounts
    requires d.c.payoutKeys == w.c.payoutKeys && d.c.round == w.c.round && d.c.payouts == w.c.payouts
    requires d.c.finalizedAt == w.c.finalizedAt && d.c.claimEnd == w.c.claimEnd && d.c.donationEnd == w.c.donationEnd
    requires d.c.closed || (!w.c.closed && d.c.balance >= w.c.balance)
    requires d.now >= w.now && d.paid == w.paid
    requires d.c.balance + d.swept + w.deposited == d.deposited + w.c.balance + w.swept
    ensures Inv(d)
  {
    FundsKeepSolvent(w.c, d.c);
    assert AllRecorded(d.c, d.paid) by {
      forall i | 0 <= i < |d.paid| ensures Recorded(d.c, d.paid[i]) {
        assert Recorded(w.c, w.paid[i]);
      }
    }
  }

  lemma ExcludeKeepsInv(w: World, pass: Pass)
    requires Inv(w) && Exclude(w.c, pass).Some?
    ensures Inv(w.(c := Exclude(w.c, pass).value)) && Grown(w.c, Exclude(w.c, pass).value)
  {
    var d := Exclude(w.c, pass).value;
    ExcludeKeepsSolvent(w.c, pass);
    RecordedGrows(w.c, d, w.paid);
  }

  lemma StepKeepsInv(w: World, step: Step)
    requires Inv(w)
    ensures Inv(Apply(w, step))
  {
    match step
    case Claiming(pass, evidence) =>
      var r := Claim(w.c, pass, evidence, w.now);
      if r.Ok? {
        ClaimIsFunded(w.c, pass, evidence, w.now);
        ClaimKeepsTimed(w, pass, evidence, r.value);
        ClaimKeepsLogged(w, pass, evidence, r.value);
      }
    case Excluding(pass) =>
      if Exclude(w.c, pass).Some? {
        ExcludeKeepsInv(w, pass);
      }
    case Tick(ms) => FundsKeepInv(w, Apply(w, step));
    case Depositing(amount) => FundsKeepInv(w, Apply(w, step));
    case Counting(census) => FundsKeepInv(w, Apply(w, step));
    case ReturningFloor => FundsKeepInv(w, Apply(w, step));
    case Sweeping => FundsKeepInv(w, Apply(w, step));
  }

  lemma {:induction false} RunKeepsInv(w: World, steps: seq<Step>)
    requires Inv(w)
    ensures Inv(Run(w, steps))
    decreases |steps|
  {
    if |steps| > 0 {
      StepKeepsInv(w, steps[0]);
      RunKeepsInv(Apply(w, steps[0]), steps[1..]);
    }
  }

  lemma StartIsInv(now: nat)
    ensures Inv(Start(now))
  {
    CreatedIsSolvent(now);
  }

  lemma StepGrows(w: World, step: Step)
    ensures Grown(w.c, Apply(w, step).c) && Apply(w, step).now >= w.now
  {
    if step.Claiming? {
      var r := Claim(w.c, step.pass, step.evidence, w.now);
      if r.Ok? {
        ClaimCut(w.c, step.pass, step.evidence, w.now, r.value);
      }
    }
  }

  lemma {:induction false} RunGrows(w: World, steps: seq<Step>)
    ensures Grown(w.c, Run(w, steps).c) && Run(w, steps).now >= w.now
    decreases |steps|
  {
    if |steps| > 0 {
      var next := Apply(w, steps[0]);
      StepGrows(w, steps[0]);
      RunGrows(next, steps[1..]);
      GrownTransitive(w.c, next.c, Run(w, steps).c);
    }
  }

  // ----- Main results ----------------------------------------------------------------------------

  /** In any run of a created campaign no floor and no payout of a round is paid twice to a pass, a payout is
      for a round after the one the pass was verified in, deposits are what is left plus what was paid and
      swept, and no further claim can find the pool short of a payout that is due. */
  lemma PaidOnceInTurnAndFunded(start: nat, steps: seq<Step>, pass: Pass, evidence: Evidence)
    ensures var w := Run(Start(start), steps);
            && NoneTwice(w.paid)
            && AllRecorded(w.c, w.paid)
            && w.deposited == w.c.balance + PayoutTotal(w.paid) + w.swept
            && Claim(w.c, pass, evidence, w.now) != Err(PayoutUnfunded)
            && Claim(w.c, pass, evidence, w.now) != Err(NotVerified)
  {
    StartIsInv(start);
    RunKeepsInv(Start(start), steps);
    var w := Run(Start(start), steps);
    ClaimIsFunded(w.c, pass, evidence, w.now);
    var admitted := Admit(w.c, pass, evidence, w.now);
    if admitted.Ok? {
      OpenedFacts(w.c, pass, evidence, w.now);
      PayOutcome(Opened(w.c, pass, evidence, w.now), pass, WillPayFloor(w.c, pass), pass !in w.c.applications);
    }
  }

  lemma StepKeepsEffectiveRound(w: World, step: Step)
    ensures EffectiveRound(w.c, w.now) <= EffectiveRound(Apply(w, step).c, Apply(w, step).now)
  {
    if step.Claiming? {
      var r := Claim(w.c, step.pass, step.evidence, w.now);
      if r.Ok? {
        ClaimCut(w.c, step.pass, step.evidence, w.now, r.value);
        OpenedFacts(w.c, step.pass, step.evidence, w.now);
        PayRecords(Opened(w.c, step.pass, step.evidence, w.now), step.pass, WillPayFloor(w.c, step.pass),
                   step.pass !in w.c.applications, r.value);
      }
    }
  }

  /** The round the dapp works with never falls, whatever happens to the campaign meanwhile. */
  lemma {:induction false} EffectiveRoundNeverFalls(w: World, steps: seq<Step>)
    ensures EffectiveRound(w.c, w.now) <= EffectiveRound(Run(w, steps).c, Run(w, steps).now)
    decreases |steps|
  {
    if |steps| > 0 {
      StepKeepsEffectiveRound(w, steps[0]);
      EffectiveRoundNeverFalls(Apply(w, steps[0]), steps[1..]);
    }
  }

  /** A floor offered and taken is never offered to that pass again. */
  lemma FloorOfferedOnce(w: World, pass: Pass, evidence: Evidence, later: seq<Step>)
    requires OffersFloor(w.c, pass, w.now) && Claim(w.c, pass, evidence, w.now).Ok?
    ensures var end := Run(Apply(w, Claiming(pass, evidence)), later);
            !OffersFloor(end.c, pass, end.now)
  {
    var claimed := Claim(w.c, pass, evidence, w.now).value;
    var next := Apply(w, Claiming(pass, evidence));
    ClaimCut(w.c, pass, evidence, w.now, claimed);
    PayRecords(Opened(w.c, pass, evidence, w.now), pass, WillPayFloor(w.c, pass), pass !in w.c.applications, claimed);
    FloorIsNew(w.c, pass, evidence, w.now, claimed);
    RunGrows(next, later);
    assert Kept(next.c, Run(next, later).c, pass);
  }

  /** A created campaign closes its claim window before its first boundary, so no first claim opens a round. */
  lemma NoFirstClaimOpensRound(w: World, pass: Pass, band: nat)
    requires Timed(w)
    ensures !OpensOwnRound(w.c, pass, band, w.now)
  {
  }

  /** In any run of a created campaign, and whatever evidence a claim brings, a payout is paid exactly if the dapp
      offers it, the campaign is open, the recipient is not stalled, and, where a floor is offered too, the floor
      budget holds it and the identity is verified. */
  lemma PayoutIsPaidIff(start: nat, steps: seq<Step>, pass: Pass, evidence: Evidence)
    ensures var w := Run(Start(start), steps);
            Pays(Claim(w.c, pass, evidence, w.now))
            <==> OffersPayout(w.c, pass, w.now) && Open(w.c) && !Stalled(w.c, pass, w.now)
                 && FloorFunded(w.c, pass, evidence.band)
                 && (OffersFloor(w.c, pass, w.now) ==> evidence.identityVerified)
  {
    var w := Run(Start(start), steps);
    StartIsInv(start);
    RunKeepsInv(Start(start), steps);
    if OffersPayout(w.c, pass, w.now) {
      OfferedPayoutIsPaidIff(w.c, pass, evidence, w.now);
    } else {
      UnofferedPayoutIsPaidIff(w.c, pass, evidence, w.now);
      NoFirstClaimOpensRound(w, pass, evidence.band);
    }
  }

  /** The same of what the reader answers, at any spelling of the clock. */
  lemma AnnouncedPayoutIsPaidIff(start: nat, steps: seq<Step>, pass: Pass, evidence: Evidence, clock: Clock)
    requires ParseClock(clock) == Some(Run(Start(start), steps).now)
    ensures var w := Run(Start(start), steps);
            match Read(w.c, pass, clock)
            case None => false
            case Some(answer) =>
              Pays(Claim(w.c, pass, evidence, w.now))
              <==> answer.Claimable? && answer.willPayPayout && Open(w.c) && !Stalled(w.c, pass, w.now)
                   && FloorFunded(w.c, pass, evidence.band) && (answer.willPayFloor ==> evidence.identityVerified)
  {
    var w := Run(Start(start), steps);
    ReadIsOffer(w.c, pass, clock);
    PayoutIsPaidIff(start, steps, pass, evidence);
  }

  lemma PaidInEffectiveRound(c: Campaign, pass: Pass, evidence: Evidence, now: nat, claimed: Claimed)
    requires Solvent(c) && OffersPayout(c, pass, now)
    requires Claim(c, pass, evidence, now) == Ok(claimed) && !(BoundaryReached(c, now) && PoolTooSmall(c))
    ensures claimed.payout.Some? && claimed.next.round == EffectiveRound(c, now)
  {
    OfferedPayoutIsPaidIff(c, pass, evidence, now);
    ClaimOutcome(c, pass, evidence, now);
    EffectiveRoundIsNext(c, now);
    ClaimCut(c, pass, evidence, now, claimed);
    PayRecords(Opened(c, pass, evidence, now), pass, WillPayFloor(c, pass), pass !in c.applications, claimed);
  }

  lemma KeyInEffectiveRound(w: World, pass: Pass, evidence: Evidence, claimed: Claimed)
    requires Inv(w) && OffersPayout(w.c, pass, w.now)
    requires Claim(w.c, pass, evidence, w.now) == Ok(claimed) && !(BoundaryReached(w.c, w.now) && PoolTooSmall(w.c))
    ensures (pass, EffectiveRound(w.c, w.now)) in claimed.next.payoutKeys
  {
    PaidInEffectiveRound(w.c, pass, evidence, w.now, claimed);
    PayoutIsNew(w.c, pass, evidence, w.now, claimed, Payout(pass, claimed.next.round, claimed.payout.value));
  }

  lemma KeyEndsOffer(c: Campaign, pass: Pass, now: nat, round: nat)
    requires (pass, round) in c.payoutKeys && OffersPayout(c, pass, now)
    ensures EffectiveRound(c, now) != round
  {
  }

  /** Where the pool is not too small for a round whose boundary has passed, a payout offered and taken is the
      last one offered for that round. */
  lemma PayoutOfferedOncePerRound(w: World, pass: Pass, evidence: Evidence, later: seq<Step>)
    requires Inv(w) && OffersPayout(w.c, pass, w.now)
    requires Claim(w.c, pass, evidence, w.now).Ok? && !(BoundaryReached(w.c, w.now) && PoolTooSmall(w.c))
    ensures var end := Run(Apply(w, Claiming(pass, evidence)), later);
            OffersPayout(end.c, pass, end.now) ==> EffectiveRound(end.c, end.now) > EffectiveRound(w.c, w.now)
  {
    var next := Apply(w, Claiming(pass, evidence));
    KeyInEffectiveRound(w, pass, evidence, Claim(w.c, pass, evidence, w.now).value);
    StepKeepsEffectiveRound(w, Claiming(pass, evidence));
    KeyStays(next, pass, EffectiveRound(w.c, w.now), later);
  }

  /** Once its key is there, a payout is offered for later rounds only. */
  lemma KeyStays(w: World, pass: Pass, round: nat, later: seq<Step>)
    requires (pass, round) in w.c.payoutKeys && round <= EffectiveRound(w.c, w.now)
    ensures var end := Run(w, later);
            OffersPayout(end.c, pass, end.now) ==> EffectiveRound(end.c, end.now) > round
  {
    var end := Run(w, later);
    RunGrows(w, later);
    EffectiveRoundNeverFalls(w, later);
    if OffersPayout(end.c, pass, end.now) {
      KeyEndsOffer(end.c, pass, end.now, round);
    }
  }

  lemma DueIsOffered(w: World, pass: Pass)
    requires Inv(w) && pass in w.c.applications && !w.c.applications[pass].excluded
    requires BoundaryReached(w.c, w.now)
    ensures OffersPayout(w.c, pass, w.now)
  {
    OfferedPayoutIff(w.c, pass, w.now);
  }

  lemma StalledClaimFacts(c: Campaign, pass: Pass, evidence: Evidence, now: nat, claimed: Claimed)
    requires pass in c.applications && BoundaryReached(c, now) && PoolTooSmall(c)
    requires Claim(c, pass, evidence, now) == Ok(claimed)
    ensures claimed.next.round == c.round && claimed.next.finalizedAt == c.finalizedAt && Grown(c, claimed.next)
    ensures !claimed.next.applications[pass].excluded
  {
    ClaimCut(c, pass, evidence, now, claimed);
    PayRecords(Opened(c, pass, evidence, now), pass, WillPayFloor(c, pass), false, claimed);
  }

  /** Where it is too small, the very same offer stands after the claim, paid for an earlier round or aborted. */
  lemma StalledOfferRepeats(w: World, pass: Pass, evidence: Evidence)
    requires Inv(w) && OffersPayout(w.c, pass, w.now) && BoundaryReached(w.c, w.now) && PoolTooSmall(w.c)
    ensures var next := Apply(w, Claiming(pass, evidence));
            OffersPayout(next.c, pass, next.now) && EffectiveRound(next.c, next.now) == EffectiveRound(w.c, w.now)
  {
    var next := Apply(w, Claiming(pass, evidence));
    var r := Claim(w.c, pass, evidence, w.now);
    if r.Ok? {
      StepKeepsInv(w, Claiming(pass, evidence));
      StalledClaimFacts(w.c, pass, evidence, w.now, r.value);
      DueIsOffered(next, pass);
    }
  }

  // ----- The ways an offered payout is not paid --------------------------------------------------

  lemma {:induction false} RunSnoc(w: World, steps: seq<Step>, last: Step)
    ensures Run(w, steps + [last]) == Apply(Run(w, steps), last)
    decreases |steps|
  {
    if |steps| == 0 {
      assert steps + [last] == [last] && [last][1..] == [];
    } else {
      assert (steps + [last])[1..] == steps[1..] + [last];
      RunSnoc(Apply(w, steps[0]), steps[1..], last);
    }
  }

  /** A pass that registers at once in a campaign created at zero. */
  lemma FirstClaimRegisters(pass: Pass, band: nat)
    requires 1 <= band <= 3
    ensures Run(Start(0), [Claiming(pass, Evidence(true, true, band))])
            == World(0, Register(Created(0), pass, band), [], 0, 0)
  {
    var first := Claiming(pass, Evidence(true, true, band));
    var d := Register(Created(0), pass, band);
    assert !BoundaryReached(d, 0) && !WillPayFloor(Created(0), pass) && !PayoutDue(d, pass);
    assert Pay(d, pass, false, true) == Ok(Claimed(d, None, None));
    assert [first][1..] == [];
  }

  /** The recipient is offered a payout at the end of the run, and what the claim does instead. */
  lemma OfferedNotPaid(steps: seq<Step>, w: World, pass: Pass, evidence: Evidence)
    requires w == Run(Start(0), steps)
    requires pass in w.c.applications && !w.c.applications[pass].excluded && BoundaryReached(w.c, w.now)
    ensures OffersPayout(w.c, pass, w.now)
    ensures Open(w.c) && Stalled(w.c, pass, w.now) && !WillPayFloor(w.c, pass) ==>
              Claim(w.c, pass, evidence, w.now) == Err(NothingToClaim)
    ensures Open(w.c) && IdentityAnswered(w.c, pass, evidence) && !FloorFunded(w.c, pass, evidence.band) ==>
              Claim(w.c, pass, evidence, w.now) == Err(FloorUnfunded)
  {
    StartIsInv(0);
    RunKeepsInv(Start(0), steps);
    DueIsOffered(w, pass);
    ClaimOutcome(w.c, pass, evidence, w.now);
    NothingLeftIff(w.c, pass, evidence, w.now);
  }

  /** Stalled: one recipient, no donation, the donation period over. The claim aborts with nothing to claim. */
  lemma StalledOfferExample(pass: Pass) returns (steps: seq<Step>, w: World)
    ensures w == Run(Start(0), steps) && Open(w.c) && OffersPayout(w.c, pass, w.now) && Stalled(w.c, pass, w.now)
    ensures Claim(w.c, pass, Evidence(true, true, 1), w.now) == Err(NothingToClaim)
  {
    steps := [Claiming(pass, Evidence(true, true, 1))];
    FirstClaimRegisters(pass, 1);
    RunSnoc(Start(0), steps, Tick(DONATION_PERIOD));
    w := World(DONATION_PERIOD, Register(Created(0), pass, 1), [], 0, 0);
    steps := steps + [Tick(DONATION_PERIOD)];
    OfferedNotPaid(steps, w, pass, Evidence(true, true, 1));
  }

  /** A census that counted one member of the lowest band: the floor budget is one low floor, while a recipient of
      the highest band is promised six times as much. */
  function LowCensus(): Census {
    Census(Bands(1, 0, 0), 1_000_000_000, 0)
  }

  lemma LowPlan()
    ensures PlanFloor(TERMS.targets, LowCensus()) ==
            FloorPlan(Bands(25_000_000, 75_000_000, 150_000_000), 25_000_000, 0)
  {
  }

  /** A recipient of some band, that census, a full pool, and the donation period over. */
  lemma FullPool(pass: Pass, band: nat) returns (steps: seq<Step>, w: World)
    requires 1 <= band <= 3
    ensures w == Run(Start(0), steps) && Open(w.c) && OffersPayout(w.c, pass, w.now) && !Stalled(w.c, pass, w.now)
    ensures w.c == CountFloor(Register(Created(0), pass, band), PlanFloor(TERMS.targets, LowCensus()))
                   .(balance := 1_000_000_000)
    ensures BoundaryReached(w.c, w.now)
  {
    var c := Register(Created(0), pass, band);
    steps := [Claiming(pass, Evidence(true, true, band))];
    FirstClaimRegisters(pass, band);
    RunSnoc(Start(0), steps, Counting(LowCensus()));
    steps := steps + [Counting(LowCensus())];
    c := CountFloor(c, PlanFloor(TERMS.targets, LowCensus()));
    assert Run(Start(0), steps) == World(0, c, [], 0, 0);
    RunSnoc(Start(0), steps, Depositing(1_000_000_000));
    steps := steps + [Depositing(1_000_000_000)];
    c := c.(balance := 1_000_000_000);
    assert Run(Start(0), steps) == World(0, c, [], 1_000_000_000, 0);
    RunSnoc(Start(0), steps, Tick(DONATION_PERIOD));
    steps := steps + [Tick(DONATION_PERIOD)];
    w := World(DONATION_PERIOD, c, [], 1_000_000_000, 0);
    OfferedNotPaid(steps, w, pass, Evidence(true, true, band));
  }

  /** Floor unfunded: the pool is full, but the claim has to pay the floor first and the floor budget is short of
      it. The claim aborts, and the payout is not paid either. */
  lemma FloorUnfundedExample(pass: Pass) returns (steps: seq<Step>, w: World)
    ensures w == Run(Start(0), steps) && Open(w.c) && OffersPayout(w.c, pass, w.now) && !Stalled(w.c, pass, w.now)
    ensures Claim(w.c, pass, Evidence(true, true, 3), w.now) == Err(FloorUnfunded)
  {
    LowPlan();
    steps, w := FullPool(pass, 3);
    OfferedNotPaid(steps, w, pass, Evidence(true, true, 3));
  }

  /** Identity lapsed: pool and floor budget are full, and a floor is offered with the payout; with an identity no
      longer verified the claim aborts, though a payout alone would not have asked for it. */
  lemma IdentityLapsedExample(pass: Pass) returns (steps: seq<Step>, w: World)
    ensures w == Run(Start(0), steps) && Open(w.c) && OffersPayout(w.c, pass, w.now) && !Stalled(w.c, pass, w.now)
    ensures FloorFunded(w.c, pass, 1)
    ensures Claim(w.c, pass, Evidence(false, false, 0), w.now) == Err(IdentityNotVerified)
    ensures Pays(Claim(w.c, pass, Evidence(true, false, 0), w.now))
  {
    LowPlan();
    steps, w := FullPool(pass, 1);
    PayoutIsPaidIff(0, steps, pass, Evidence(true, false, 0));
  }

  /** Swept: once the residual has gone back to the main pool the campaign is closed, and the dapp, which does not
      look, still offers. */
  lemma SweptOfferExample(pass: Pass) returns (steps: seq<Step>, w: World)
    ensures w == Run(Start(0), steps) && OffersPayout(w.c, pass, w.now)
    ensures Claim(w.c, pass, Evidence(true, true, 1), w.now) == Err(Closed)
  {
    var c := Register(Created(0), pass, 1);
    var wait := DONATION_PERIOD + TERMS.interval;
    steps := [Claiming(pass, Evidence(true, true, 1))];
    FirstClaimRegisters(pass, 1);
    LowPlan();
    RunSnoc(Start(0), steps, Counting(LowCensus()));
    steps := steps + [Counting(LowCensus())];
    c := CountFloor(c, PlanFloor(TERMS.targets, LowCensus()));
    RunSnoc(Start(0), steps, Tick(wait));
    steps := steps + [Tick(wait)];
    assert Run(Start(0), steps) == World(wait, c, [], 0, 0);
    RunSnoc(Start(0), steps, ReturningFloor);
    steps := steps + [ReturningFloor];
    c := c.(floorBudgetReturned := true, floorBalance := 0);
    assert Run(Start(0), steps) == World(wait, c, [], 0, 0);
    RunSnoc(Start(0), steps, Sweeping);
    steps := steps + [Sweeping];
    w := World(wait, c.(closed := true), [], 0, 0);
    OfferedNotPaid(steps, w, pass, Evidence(true, true, 1));
  }
}

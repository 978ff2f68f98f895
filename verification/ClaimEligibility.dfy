/** The eligibility the dapp shows before a claim (dapp/app/claim/claim-campaigns.ts), set against what the
    claim entry of the contract then does. */
module ClaimEligibility {
  import opened Prelude
  import opened CampaignContract
  import Decimal
  import JsText

  /** The caller's clock: a whole number, another number, or text. */
  datatype Clock = Millis(n: int) | OtherNumber | Text(text: string)

  const MAX_SAFE_INTEGER: nat := 9_007_199_254_740_991

  function ParseClock(clock: Clock): Option<nat> {
    match clock
    case Millis(n) => if 0 <= n <= MAX_SAFE_INTEGER then Some(n) else None
    case OtherNumber => None
    case Text(text) =>
      var trimmed := JsText.Trim(text);
      if Decimal.Canonical(trimmed) then Some(Decimal.Value(trimmed)) else None
  }

  datatype Reason = WindowClosed | ClaimNotVerified | ClaimExcluded | NothingLeft

  datatype Eligibility =
    | Refused(reason: Reason)
    | Claimable(initial: bool, requiresIdentity: bool, willPayFloor: bool, willPayPayout: bool)

  /** The round a claim sent now would be paid in. */
  function EffectiveRound(c: Campaign, now: nat): nat {
    var boundaryReached := if c.round == 0 then now >= c.donationEnd else now >= c.finalizedAt + c.terms.interval;
    if boundaryReached then c.round + 1 else c.round
  }

  function DeriveAt(c: Campaign, application: Option<Application>, payoutClaimed: bool, now: nat): Eligibility {
    var first := application.None?;
    if first && now >= c.claimEnd then Refused(WindowClosed)
    else if application.Some? && !application.value.verified then Refused(ClaimNotVerified)
    else if application.Some? && application.value.excluded then Refused(ClaimExcluded)
    else
      var floorClaimed := application.Some? && application.value.floorClaimed;
      var willPayFloor := !floorClaimed && c.censusSet && !c.floorBudgetReturned;
      var round := EffectiveRound(c, now);
      var verifiedInRound := if application.None? then round else application.value.verifiedInRound;
      var willPayPayout := !first && round >= 1 && verifiedInRound < round && !payoutClaimed;
      if !first && !willPayFloor && !willPayPayout then Refused(NothingLeft)
      else Claimable(first, first || willPayFloor, willPayFloor, willPayPayout)
  }

  function Derive(c: Campaign, application: Option<Application>, payoutClaimed: bool, clock: Clock)
    : Option<Eligibility>
  {
    match ParseClock(clock)
    case None => None
    case Some(now) => Some(DeriveAt(c, application, payoutClaimed, now))
  }

  function ReadApplication(c: Campaign, pass: Pass): Option<Application> {
    if pass in c.applications then Some(c.applications[pass]) else None
  }

  /** The reads from the chain, then the derivation; `None` is the reader's error result. */
  function Read(c: Campaign, pass: Pass, clock: Clock): Option<Eligibility> {
    match ParseClock(clock)
    case None => None
    case Some(now) =>
      var round := EffectiveRound(c, now);
      var payoutClaimed := round >= 1 && (pass, round) in c.payoutKeys;
      Derive(c, ReadApplication(c, pass), payoutClaimed, clock)
  }

  /** What the reader answers at a clock it can parse. */
  function Offer(c: Campaign, pass: Pass, now: nat): Eligibility {
    var round := EffectiveRound(c, now);
    DeriveAt(c, ReadApplication(c, pass), round >= 1 && (pass, round) in c.payoutKeys, now)
  }

  /** So what is proved of the offer is proved of the reader. */
  lemma ReadIsOffer(c: Campaign, pass: Pass, clock: Clock)
    ensures Read(c, pass, clock)
            == match ParseClock(clock) case None => None case Some(now) => Some(Offer(c, pass, now))
  {
  }

  /** The reader fails exactly on a clock that is no unsigned number. Otherwise, whatever other payout keys
      there are, its answer turns on the key of one round, the effective one; and it offers a payout exactly to
      a verified recipient, not excluded, verified before that round, whose key of that round is not there. */
  lemma ReaderUsesEffectiveRound(c: Campaign, pass: Pass, clock: Clock, keys: set<(Pass, nat)>)
    ensures Read(c, pass, clock).None? <==> ParseClock(clock).None?
    ensures ParseClock(clock).Some? ==>
              var key := (pass, EffectiveRound(c, ParseClock(clock).value));
              (key in keys <==> key in c.payoutKeys) ==>
                Read(c.(payoutKeys := keys), pass, clock) == Read(c, pass, clock)
    ensures ParseClock(clock).Some? ==>
              var round := EffectiveRound(c, ParseClock(clock).value);
              var offer := Read(c, pass, clock).value;
              (offer.Claimable? && offer.willPayPayout)
              <==> && pass in c.applications
                   && c.applications[pass].verified && !c.applications[pass].excluded
                   && c.applications[pass].verifiedInRound < round && (pass, round) !in c.payoutKeys
  {
  }

  /** Every text the clock could be printed to, padded or not, parses back. */
  lemma ClockRoundTrip(now: nat, lead: string, trail: string)
    requires JsText.AllSpace(lead) && JsText.AllSpace(trail)
    ensures ParseClock(Text(lead + Decimal.Print(now) + trail)) == Some(now)
  {
    Decimal.ValueOfPrint(now);
    JsText.TrimOfPadded(lead, Decimal.Print(now), trail);
  }

  // ----- The offer against the claim -------------------------------------------------------------

  /** The identity is verified where the claim asks for it: at a first claim, or for the floor. */
  predicate IdentityAnswered(c: Campaign, pass: Pass, evidence: Evidence) {
    pass !in c.applications || WillPayFloor(c, pass) ==> evidence.identityVerified
  }

  /** The leaf is accepted where the claim looks at it, which is at a first claim alone. */
  predicate LeafAnswered(c: Campaign, pass: Pass, evidence: Evidence) {
    pass !in c.applications ==> evidence.leafAccepted && 1 <= evidence.band <= 3
  }

  predicate Open(c: Campaign) {
    !c.paused && !c.closed
  }

  predicate OffersFloor(c: Campaign, pass: Pass, now: nat) {
    Offer(c, pass, now).Claimable? && Offer(c, pass, now).willPayFloor
  }

  predicate OffersPayout(c: Campaign, pass: Pass, now: nat) {
    Offer(c, pass, now).Claimable? && Offer(c, pass, now).willPayPayout
  }

  /** The boundary has passed, the pool is too small to open the next round, and nothing is due in this one. */
  predicate Stalled(c: Campaign, pass: Pass, now: nat) {
    pass in c.applications && BoundaryReached(c, now) && PoolTooSmall(c) && !PayoutDue(c, pass)
  }

  /** The band a claim would be paid by: the registered one, or the one a first claim brings. */
  function PaidBand(c: Campaign, pass: Pass, band: nat): nat {
    if pass in c.applications then c.applications[pass].band else band
  }

  /** The floor, where it will be paid, is in the floor budget. */
  predicate FloorFunded(c: Campaign, pass: Pass, band: nat) {
    WillPayFloor(c, pass) ==> c.floorAmounts.At(PaidBand(c, pass, band)) <= c.floorBalance
  }

  /** A first claim that itself opens the next round, and is paid from it unannounced. */
  predicate OpensOwnRound(c: Campaign, pass: Pass, band: nat, now: nat) {
    pass !in c.applications && now < c.claimEnd && BoundaryReached(c, now) && !PoolTooSmall(Register(c, pass, band))
  }

  /** What a claim needs whatever it is to be paid: an open campaign, the evidence asked for, and the floor funded. */
  predicate Unhindered(c: Campaign, pass: Pass, evidence: Evidence) {
    Open(c) && IdentityAnswered(c, pass, evidence) && LeafAnswered(c, pass, evidence)
    && FloorFunded(c, pass, evidence.band)
  }

  /** Where the payout the dapp announces and the payout the claim makes differ. */
  predicate PartsWays(c: Campaign, pass: Pass, evidence: Evidence, now: nat) {
    if OffersPayout(c, pass, now) then !Unhindered(c, pass, evidence) || Stalled(c, pass, now)
    else Unhindered(c, pass, evidence) && OpensOwnRound(c, pass, evidence.band, now)
  }

  lemma EffectiveRoundIsNext(c: Campaign, now: nat)
    ensures c.round <= EffectiveRound(c, now) <= c.round + 1
    ensures EffectiveRound(c, now) == LazyFinalize(c, now).round <==> !(BoundaryReached(c, now) && PoolTooSmall(c))
  {
  }

  /** The round a claim meets after the boundary has been dealt with. */
  lemma DueAfterBoundary(c: Campaign, pass: Pass, now: nat)
    requires WellFormed(c) && pass in c.applications
    ensures PayoutDue(LazyFinalize(c, now), pass)
            <==> if BoundaryReached(c, now) && !PoolTooSmall(c) then true else PayoutDue(c, pass)
  {
    var d := LazyFinalize(c, now);
    assert d.applications == c.applications && d.payoutKeys == c.payoutKeys;
    if BoundaryReached(c, now) && !PoolTooSmall(c) {
      assert d.round == c.round + 1;
      assert (pass, d.round) !in c.payoutKeys;
    } else {
      assert d.round == c.round;
    }
  }

  lemma OfferedPayoutIff(c: Campaign, pass: Pass, now: nat)
    requires WellFormed(c) && pass in c.applications && !c.applications[pass].excluded
    ensures OffersPayout(c, pass, now) <==> BoundaryReached(c, now) || PayoutDue(c, pass)
  {
    if BoundaryReached(c, now) {
      assert (pass, c.round + 1) !in c.payoutKeys;
    }
  }

  predicate Pays(r: Result<Claimed, Abort>) {
    r.Ok? && r.value.payout.Some?
  }

  predicate PaysFloor(r: Result<Claimed, Abort>) {
    r.Ok? && r.value.floor.Some?
  }

  /** The two payments, outcome by outcome. */
  lemma PayOutcome(c: Campaign, pass: Pass, payFloor: bool, first: bool)
    requires pass in c.applications
    ensures var r, band := Pay(c, pass, payFloor, first), c.applications[pass].band;
            if payFloor && c.floorBalance < c.floorAmounts.At(band) then r == Err(FloorUnfunded)
            else if PayoutDue(c, pass) && c.balance < c.payouts.At(band) then r == Err(PayoutUnfunded)
            else if !PayoutDue(c, pass) && !first && !payFloor then r == Err(NothingToClaim)
            else r.Ok? && (r.value.payout.Some? <==> PayoutDue(c, pass)) && (r.value.floor.Some? <==> payFloor)
  {
  }

  /** The finalisation leaves what the floor payment looks at. */
  lemma FinalizeKeepsFloor(c: Campaign, now: nat)
    ensures var d := LazyFinalize(c, now);
            d.applications == c.applications && d.floorAmounts == c.floorAmounts && d.floorBalance == c.floorBalance
  {
  }

  /** Whatever the evidence, a claim on a solvent campaign, outcome by outcome. */
  lemma ClaimOutcome(c: Campaign, pass: Pass, evidence: Evidence, now: nat)
    requires Solvent(c)
    ensures var admitted, r := Admit(c, pass, evidence, now), Claim(c, pass, evidence, now);
            if admitted.Err? then r == Err(admitted.error)
            else if !FloorFunded(c, pass, evidence.band) then r == Err(FloorUnfunded)
            else
              && pass in LazyFinalize(admitted.value, now).applications
              && var due := PayoutDue(LazyFinalize(admitted.value, now), pass);
                 if !due && pass in c.applications && !WillPayFloor(c, pass) then r == Err(NothingToClaim)
                 else r.Ok? && (Pays(r) <==> due) && (PaysFloor(r) <==> WillPayFloor(c, pass))
  {
    var admitted := Admit(c, pass, evidence, now);
    ClaimIsFunded(c, pass, evidence, now);
    if admitted.Ok? {
      FinalizeKeepsFloor(admitted.value, now);
      PayOutcome(LazyFinalize(admitted.value, now), pass, WillPayFloor(c, pass), pass !in c.applications);
    }
  }

  /** A claim is refused for the reason the dapp shows, exactly on an open campaign and with the identity in order. */
  lemma RefusalsAgree(c: Campaign, pass: Pass, evidence: Evidence, now: nat)
    requires Solvent(c)
    ensures var r, heard := Claim(c, pass, evidence, now), Open(c) && IdentityAnswered(c, pass, evidence);
            && (r == Err(ClaimWindowClosed) <==> heard && Offer(c, pass, now) == Refused(WindowClosed))
            && (r == Err(NotVerified) <==> heard && Offer(c, pass, now) == Refused(ClaimNotVerified))
            && (r == Err(Excluded) <==> heard && Offer(c, pass, now) == Refused(ClaimExcluded))
  {
    ClaimOutcome(c, pass, evidence, now);
  }

  /** A claim pays the floor exactly where the dapp offers it and nothing hinders the claim. */
  lemma FloorIsPaidIff(c: Campaign, pass: Pass, evidence: Evidence, now: nat)
    requires Solvent(c)
    ensures PaysFloor(Claim(c, pass, evidence, now))
            <==> OffersFloor(c, pass, now) && Unhindered(c, pass, evidence)
  {
    ClaimOutcome(c, pass, evidence, now);
  }

  /** The round a claim that was let in meets: due to a registered recipient as before or because it has just
      been opened, and to a first claimer only if that claim opened it. */
  lemma DueOnceAdmitted(c: Campaign, pass: Pass, evidence: Evidence, now: nat)
    requires WellFormed(c) && Admit(c, pass, evidence, now).Ok?
    ensures var d := LazyFinalize(Admit(c, pass, evidence, now).value, now);
            && pass in d.applications
            && (PayoutDue(d, pass) <==>
                if pass in c.applications then OffersPayout(c, pass, now) && !Stalled(c, pass, now)
                else OpensOwnRound(c, pass, evidence.band, now))
  {
    var admitted := Admit(c, pass, evidence, now).value;
    DueAfterBoundary(admitted, pass, now);
    if pass in c.applications {
      OfferedPayoutIff(c, pass, now);
    } else {
      assert !PayoutDue(admitted, pass);
    }
  }

  /** A payout the dapp offers is paid exactly if the campaign is open, the recipient not stalled, and the floor,
      where one is offered with it, funded and the identity for it verified. No leaf is asked for. */
  lemma OfferedPayoutIsPaidIff(c: Campaign, pass: Pass, evidence: Evidence, now: nat)
    requires Solvent(c) && OffersPayout(c, pass, now)
    ensures Pays(Claim(c, pass, evidence, now))
            <==> Open(c) && !Stalled(c, pass, now) && FloorFunded(c, pass, evidence.band)
                 && (OffersFloor(c, pass, now) ==> evidence.identityVerified)
  {
    ClaimOutcome(c, pass, evidence, now);
    if Admit(c, pass, evidence, now).Ok? {
      DueOnceAdmitted(c, pass, evidence, now);
    }
  }

  /** A payout the dapp does not offer is paid exactly to an unhindered first claim that opens its own round. */
  lemma UnofferedPayoutIsPaidIff(c: Campaign, pass: Pass, evidence: Evidence, now: nat)
    requires Solvent(c) && !OffersPayout(c, pass, now)
    ensures Pays(Claim(c, pass, evidence, now))
            <==> Unhindered(c, pass, evidence) && OpensOwnRound(c, pass, evidence.band, now)
  {
    ClaimOutcome(c, pass, evidence, now);
    if Admit(c, pass, evidence, now).Ok? {
      DueOnceAdmitted(c, pass, evidence, now);
    }
  }

  /** For every claim, aborted ones included: the payout announced is the payout made, except exactly where they
      part ways. */
  lemma PayoutAgreesUnlessPartsWays(c: Campaign, pass: Pass, evidence: Evidence, now: nat)
    requires Solvent(c)
    ensures (OffersPayout(c, pass, now) <==> Pays(Claim(c, pass, evidence, now)))
            <==> !PartsWays(c, pass, evidence, now)
  {
    if OffersPayout(c, pass, now) {
      OfferedPayoutIsPaidIff(c, pass, evidence, now);
    } else {
      UnofferedPayoutIsPaidIff(c, pass, evidence, now);
    }
  }

  /** A claim aborts with nothing to claim exactly on an open campaign where the dapp says so, or where it
      offers a stalled recipient a payout and no floor. */
  lemma NothingLeftIff(c: Campaign, pass: Pass, evidence: Evidence, now: nat)
    requires Solvent(c)
    ensures Claim(c, pass, evidence, now) == Err(NothingToClaim)
            <==> Open(c) && (Offer(c, pass, now) == Refused(NothingLeft)
                             || (OffersPayout(c, pass, now) && Stalled(c, pass, now) && !OffersFloor(c, pass, now)))
  {
    ClaimOutcome(c, pass, evidence, now);
    if Admit(c, pass, evidence, now).Ok? {
      DueOnceAdmitted(c, pass, evidence, now);
    }
  }

  /** The dapp asks for identity exactly where the claim would abort without it. */
  lemma IdentityAskedIffNeeded(c: Campaign, pass: Pass, evidence: Evidence, now: nat)
    requires Open(c) && !evidence.identityVerified && Offer(c, pass, now).Claimable?
    ensures Offer(c, pass, now).requiresIdentity <==> Claim(c, pass, evidence, now) == Err(IdentityNotVerified)
  {
    var admitted := Admit(c, pass, evidence, now);
    if admitted.Ok? {
      PayOutcome(LazyFinalize(admitted.value, now), pass, WillPayFloor(c, pass), pass !in c.applications);
    }
  }

  /** An initial claim is offered exactly where the claim looks at the leaf: it aborts without one there alone. */
  lemma LeafAskedIffInitial(c: Campaign, pass: Pass, evidence: Evidence, now: nat)
    requires Open(c) && evidence.identityVerified && !evidence.leafAccepted && Offer(c, pass, now).Claimable?
    ensures Offer(c, pass, now).initial <==> Claim(c, pass, evidence, now) == Err(LeafRejected)
  {
    var admitted := Admit(c, pass, evidence, now);
    if admitted.Ok? {
      PayOutcome(LazyFinalize(admitted.value, now), pass, WillPayFloor(c, pass), pass !in c.applications);
    }
  }

  /** The clocks the reader takes: whole numbers JavaScript holds exactly, and the decimal texts without leading zeros,
      padded or not. */
  lemma ClocksRead(clock: Clock)
    ensures clock.Millis? ==>
              ParseClock(clock) == if 0 <= clock.n <= 9_007_199_254_740_991 then Some(clock.n) else None
    ensures clock.OtherNumber? ==> ParseClock(clock).None?
    ensures clock.Text? ==> forall n: nat :: ParseClock(clock) == Some(n) <==>
              exists lead, trail :: JsText.AllSpace(lead) && JsText.AllSpace(trail)
                                    && clock.text == lead + Decimal.Print(n) + trail
  {
    if clock.Text? {
      forall n: nat
        ensures ParseClock(clock) == Some(n) <==>
                exists lead, trail :: JsText.AllSpace(lead) && JsText.AllSpace(trail)
                                      && clock.text == lead + Decimal.Print(n) + trail
      {
        ClockTextIff(clock.text, n);
      }
    }
  }

  lemma ClockTextIff(text: string, n: nat)
    ensures ParseClock(Text(text)) == Some(n) <==>
            exists lead, trail :: JsText.AllSpace(lead) && JsText.AllSpace(trail)
                                  && text == lead + Decimal.Print(n) + trail
  {
    if ParseClock(Text(text)) == Some(n) {
      var lead, trail := JsText.TrimParts(text);
      Decimal.PrintOfValue(JsText.Trim(text));
      assert text == lead + Decimal.Print(n) + trail;
    }
    forall lead, trail | JsText.AllSpace(lead) && JsText.AllSpace(trail) && text == lead + Decimal.Print(n) + trail
      ensures ParseClock(Text(text)) == Some(n)
    {
      ClockRoundTrip(n, lead, trail);
    }
  }
}

/** Any number of concurrent runs of `RunnerLease.Handle` over one lease row. Every conditional write and
    every start or end of a domain handler is one atomic step; the clock never goes back, but an invocation
    may write long after it read the clock. Requests to the table may fail, and invocations may die. */
module LeaseProtocol {
  import opened Prelude
  import opened RunnerLease

  datatype Phase =
    | Entered
    | Acquiring(now: nat)
    | Held                                        // the acquiring write was answered
    | Dispatching
    | Releasing(completion: Completion<string>)
    | Done(completion: Completion<string>)
    | Failed                                      // died, or a table request threw

  datatype Invocation = Invocation(request: Request, vars: map<Variable, string>, phase: Phase)

  datatype State = State(clock: nat, row: Option<Row>, invocations: seq<Invocation>)

  /** What becomes of the answer to a write that reached the table. */
  datatype Answer = Delivered | Lost | Retried

  datatype Move =
    | ReadClock
    | AcquireWrite(answer: Answer)
    | BeginDispatch
    | EndDispatch(callback: Completion<string>)
    | ReleaseWrite(answer: Answer)
    | Fail

  datatype Step = Tick(seconds: nat) | Invoke(request: Request, vars: map<Variable, string>) | Do(p: nat, move: Move)

  function Owner(s: State, p: nat): string
    requires p < |s.invocations|
  {
    LeaseOwner(s.invocations[p].request)
  }

  function Enter(s: State, p: nat, phase: Phase): State
    requires p < |s.invocations|
  {
    s.(invocations := s.invocations[p := s.invocations[p].(phase := phase)])
  }

  function Acquired(s: State, p: nat, now: nat, answer: Answer): State
    requires p < |s.invocations|
  {
    var written := s.(row := AfterAcquire(s.row, Owner(s, p), now));
    match answer
    case Retried => written
    case Lost => Enter(written, p, Failed)
    case Delivered =>
      if AcquireAllowed(s.row, Owner(s, p), now) then Enter(written, p, Held)
      else Enter(written, p, Done(Returned(Some("refused"))))
  }

  function Ended(s: State, p: nat, callback: Completion<string>): State
    requires p < |s.invocations|
  {
    var i := s.invocations[p];
    var completion := NitroCompletion(i.vars, i.request.kind, _ => callback);
    if i.request.action.StartInstance? && completion.Threw? then Enter(s, p, Releasing(completion))
    else if i.request.action.StopInstance? && completion.Returned? then Enter(s, p, Releasing(completion))
    else Enter(s, p, Done(completion))
  }

  function Released(s: State, p: nat, completion: Completion<string>, answer: Answer): State
    requires p < |s.invocations|
  {
    var written := s.(row := AfterRelease(s.row, Owner(s, p)));
    match answer
    case Retried => written
    case Lost => Enter(written, p, Failed)
    case Delivered => Enter(written, p, Done(completion))
  }

  function Moved(s: State, p: nat, move: Move): Option<State>
    requires p < |s.invocations|
  {
    var phase, leased := s.invocations[p].phase, !s.invocations[p].request.action.OtherAction?;
    match move
    case ReadClock => if phase.Entered? && leased then Some(Enter(s, p, Acquiring(s.clock))) else None
    case AcquireWrite(answer) => if phase.Acquiring? then Some(Acquired(s, p, phase.now, answer)) else None
    case BeginDispatch =>
      if phase.Held? || (phase.Entered? && !leased) then Some(Enter(s, p, Dispatching)) else None
    case EndDispatch(callback) => if phase.Dispatching? then Some(Ended(s, p, callback)) else None
    case ReleaseWrite(answer) => if phase.Releasing? then Some(Released(s, p, phase.completion, answer)) else None
    case Fail => if phase.Done? then None else Some(Enter(s, p, Failed))
  }

  function Apply(s: State, step: Step): Option<State> {
    match step
    case Tick(seconds) => Some(s.(clock := s.clock + seconds))
    case Invoke(request, vars) => Some(s.(invocations := s.invocations + [Invocation(request, vars, Entered)]))
    case Do(p, move) => if p < |s.invocations| then Moved(s, p, move) else None
  }

  // ----- Runs ------------------------------------------------------------------------------------

  ghost predicate IsRun(states: seq<State>, steps: seq<Step>) {
    && |states| == |steps| + 1
    && states[0].invocations == []
    && forall k :: 0 <= k < |steps| ==> Apply(states[k], steps[k]) == Some(states[k + 1])
  }

  predicate Owns(s: State, owner: string) {
    s.row.Some? && s.row.value.owner == owner
  }

  /** Started or stopped under the lease: the acquiring write was answered and the handler has not ended. */
  predicate Holds(i: Invocation) {
    !i.request.action.OtherAction? && (i.phase.Held? || i.phase.Dispatching?)
  }

  predicate ReleasesUnder(s: State, step: Step, owner: string) {
    && step.Do? && step.move.ReleaseWrite? && step.p < |s.invocations|
    && s.invocations[step.p].phase.Releasing? && Owner(s, step.p) == owner
  }

  /** An acquire by someone else who had read a time strictly after the expiry. */
  predicate TakesExpired(s: State, step: Step, owner: string) {
    && step.Do? && step.move.AcquireWrite? && step.p < |s.invocations| && s.invocations[step.p].phase.Acquiring?
    && s.row.Some? && Owner(s, step.p) != owner
    && s.row.value.expiresAt < s.invocations[step.p].phase.now <= s.clock
  }

  /** The step takes the row away from `owner`. */
  predicate Loses(s: State, step: Step, owner: string) {
    Owns(s, owner) && (ReleasesUnder(s, step, owner) || TakesExpired(s, step, owner))
  }

  // ----- Invariants ----------------------------------------------------------------------------

  predicate InvocationOk(i: Invocation, clock: nat) {
    && (i.phase.Acquiring? ==> i.phase.now <= clock && !i.request.action.OtherAction?)
    && (i.phase.Held? ==> !i.request.action.OtherAction?)
    && (i.phase.Releasing? ==>
          || (i.request.action.StartInstance? && i.phase.completion.Threw?)
          || (i.request.action.StopInstance? && i.phase.completion.Returned?))
    && (i.phase.Releasing? && NitroCommand !in i.vars && DomainCommand(i.vars, i.request.kind).Some? ==>
          i.request.action.StopInstance? && i.phase.completion == Returned(None))
  }

  ghost predicate Inv(s: State) {
    forall p :: 0 <= p < |s.invocations| ==> InvocationOk(s.invocations[p], s.clock)
  }

  lemma StepKeepsInv(s: State, step: Step, s': State)
    requires Inv(s) && Apply(s, step) == Some(s')
    ensures Inv(s')
  {
    if step.Do? {
      var i := s.invocations[step.p];
      assert InvocationOk(i, s.clock);
      assert InvocationOk(s'.invocations[step.p], s'.clock);
      assert forall q :: 0 <= q < |s.invocations| && q != step.p ==> s'.invocations[q] == s.invocations[q];
    }
  }

  lemma {:induction false} RunKeepsInv(states: seq<State>, steps: seq<Step>, k: nat)
    requires IsRun(states, steps) && k < |states|
    ensures Inv(states[k])
    decreases k
  {
    if k > 0 {
      RunKeepsInv(states, steps, k - 1);
      StepKeepsInv(states[k - 1], steps[k - 1], states[k]);
    }
  }

  // ----- Who can take the row --------------------------------------------------------------------

  /** A step takes the row from its owner exactly if it releases under that name, or takes it expired. */
  lemma OwnerLostIffLoses(s: State, step: Step, s': State, owner: string)
    requires Inv(s) && Apply(s, step) == Some(s')
    ensures Owns(s, owner) && !Owns(s', owner) <==> Loses(s, step, owner)
  {
    if step.Do? {
      assert InvocationOk(s.invocations[step.p], s.clock);
    }
  }

  /** An acquire under the owner's name that the condition admits, answered or not. */
  predicate GrantsTo(s: State, step: Step, owner: string) {
    && step.Do? && step.move.AcquireWrite? && step.p < |s.invocations| && s.invocations[step.p].phase.Acquiring?
    && Owner(s, step.p) == owner && AcquireAllowed(s.row, owner, s.invocations[step.p].phase.now)
  }

  lemma GrantOwns(s: State, step: Step, s': State, owner: string)
    requires Apply(s, step) == Some(s')
    ensures GrantsTo(s, step, owner) ==> Owns(s', owner)
    ensures !Owns(s, owner) && Owns(s', owner) ==> GrantsTo(s, step, owner)
  {
  }

  /** Whenever the row stops naming `owner`, some step in between released it under that name, or took it
      after its expiry, by a clock that had really got there. */
  lemma {:induction false} LeaseLostBetween(states: seq<State>, steps: seq<Step>, i: nat, j: nat, owner: string)
    returns (k: nat)
    requires IsRun(states, steps) && i <= j < |states| && Owns(states[i], owner) && !Owns(states[j], owner)
    ensures i <= k < j && Loses(states[k], steps[k], owner)
    decreases j - i
  {
    if Owns(states[i + 1], owner) {
      k := LeaseLostBetween(states, steps, i + 1, j, owner);
    } else {
      RunKeepsInv(states, steps, i);
      OwnerLostIffLoses(states[i], steps[i], states[i + 1], owner);
      k := i;
    }
  }

  /** No release touches a row of another owner. */
  lemma ReleaseSparesOthers(s: State, step: Step, s': State, owner: string)
    requires Apply(s, step) == Some(s') && step.Do? && step.move.ReleaseWrite?
    requires Owns(s, owner) && Owner(s, step.p) != owner
    ensures s'.row == s.row
  {
  }

  // ----- Overlapping dispatches ------------------------------------------------------------------

  /** A move changes no invocation but its own, and of that only the phase. */
  lemma MoveIsLocal(s: State, p: nat, move: Move, s': State)
    requires p < |s.invocations| && Moved(s, p, move) == Some(s')
    ensures |s'.invocations| == |s.invocations|
    ensures s' == Enter(s, p, s'.invocations[p].phase).(row := s'.row)
  {
    var phase := s'.invocations[p].phase;
    assert s'.invocations == s.invocations[p := s.invocations[p].(phase := phase)];
  }

  lemma InvocationsPersist(s: State, step: Step, s': State)
    requires Apply(s, step) == Some(s')
    ensures |s.invocations| <= |s'.invocations| <= |s.invocations| + 1
    ensures forall p :: 0 <= p < |s.invocations| ==>
      s'.invocations[p].request == s.invocations[p].request && s'.invocations[p].vars == s.invocations[p].vars
    ensures forall p :: 0 <= p < |s.invocations| && !(step.Do? && step.p == p) ==> s'.invocations[p] == s.invocations[p]
    ensures |s'.invocations| > |s.invocations| ==> s'.invocations[|s.invocations|].phase == Entered
  {
    if step.Do? {
      MoveIsLocal(s, step.p, step.move, s');
    }
  }

  lemma HoldStarts(s: State, step: Step, s': State, p: nat)
    requires Inv(s) && Apply(s, step) == Some(s')
    requires p < |s'.invocations| && Holds(s'.invocations[p])
    requires p >= |s.invocations| || !Holds(s.invocations[p])
    ensures p < |s.invocations| && step == Do(p, AcquireWrite(Delivered)) && GrantsTo(s, step, Owner(s', p))
  {
    InvocationsPersist(s, step, s');
    if p < |s.invocations| {
      assert InvocationOk(s.invocations[p], s.clock);
    }
  }

  /** An invocation that holds the lease got it by its own answered write. */
  lemma {:induction false} HolderAcquired(states: seq<State>, steps: seq<Step>, j: nat, p: nat) returns (a: nat)
    requires IsRun(states, steps) && j < |states| && p < |states[j].invocations| && Holds(states[j].invocations[p])
    ensures a < j && steps[a] == Do(p, AcquireWrite(Delivered))
    ensures GrantsTo(states[a], steps[a], Owner(states[j], p)) && Owns(states[a + 1], Owner(states[j], p))
    decreases j
  {
    RunKeepsInv(states, steps, j - 1);
    InvocationsPersist(states[j - 1], steps[j - 1], states[j]);
    if p < |states[j - 1].invocations| && Holds(states[j - 1].invocations[p]) {
      a := HolderAcquired(states, steps, j - 1, p);
    } else {
      HoldStarts(states[j - 1], steps[j - 1], states[j], p);
      GrantOwns(states[j - 1], steps[j - 1], states[j], Owner(states[j], p));
      a := j - 1;
    }
  }

  /** Two different owners can be under way at once only if the one who acquired first had lost the lease,
      by expiry or by a release under its name, before the other acquired. */
  lemma OverlapNeedsLoss(states: seq<State>, steps: seq<Step>, j: nat, p: nat, q: nat) returns (a: nat, b: nat, k: nat)
    requires IsRun(states, steps) && j < |states| && p < |states[j].invocations| && q < |states[j].invocations|
    requires Holds(states[j].invocations[p]) && Holds(states[j].invocations[q])
    requires Owner(states[j], p) != Owner(states[j], q)
    ensures a < j && b < j && a != b
    ensures steps[a] == Do(p, AcquireWrite(Delivered)) && steps[b] == Do(q, AcquireWrite(Delivered))
    ensures a < b ==> a < k <= b && Loses(states[k], steps[k], Owner(states[j], p))
    ensures b < a ==> b < k <= a && Loses(states[k], steps[k], Owner(states[j], q))
  {
    a := HolderAcquired(states, steps, j, p);
    b := HolderAcquired(states, steps, j, q);
    if a < b {
      k := LeaseLostBetween(states, steps, a + 1, b + 1, Owner(states[j], p));
    } else {
      k := LeaseLostBetween(states, steps, b + 1, a + 1, Owner(states[j], q));
    }
  }

  ghost predicate LostSince(states: seq<State>, steps: seq<Step>, from: nat, to: nat, owner: string)
    requires IsRun(states, steps) && to < |states|
  {
    exists k :: from <= k < to && Loses(states[k], steps[k], owner)
  }

  ghost predicate NoGrants(states: seq<State>, steps: seq<Step>, from: nat, to: nat, owner: string)
    requires |states| == |steps| + 1 && to < |states|
  {
    forall k :: from <= k < to ==> !GrantsTo(states[k], steps[k], owner)
  }

  /** The last grant under a name before `j`. */
  lemma {:induction false} LastGrant(states: seq<State>, steps: seq<Step>, from: nat, j: nat, owner: string)
    returns (a: nat)
    requires |states| == |steps| + 1 && from < j < |states| && GrantsTo(states[from], steps[from], owner)
    ensures from <= a < j && GrantsTo(states[a], steps[a], owner) && NoGrants(states, steps, a + 1, j, owner)
    decreases j
  {
    if from == j - 1 || GrantsTo(states[j - 1], steps[j - 1], owner) {
      a := j - 1;
    } else {
      a := LastGrant(states, steps, from, j - 1, owner);
    }
  }

  /** A row that no longer names the owner stays so without a grant. */
  lemma {:induction false} StaysGone(states: seq<State>, steps: seq<Step>, i: nat, j: nat, owner: string)
    requires IsRun(states, steps) && i <= j < |states| && !Owns(states[i], owner)
    requires NoGrants(states, steps, i, j, owner)
    ensures !Owns(states[j], owner)
    decreases j - i
  {
    if i < j {
      GrantOwns(states[i], steps[i], states[i + 1], owner);
      StaysGone(states, steps, i + 1, j, owner);
    }
  }

  /** Between grants, a lease was lost exactly if the row no longer names its owner. */
  lemma LostIffGone(states: seq<State>, steps: seq<Step>, i: nat, j: nat, owner: string)
    requires IsRun(states, steps) && i <= j < |states| && Owns(states[i], owner) && NoGrants(states, steps, i, j, owner)
    ensures LostSince(states, steps, i, j, owner) <==> !Owns(states[j], owner)
  {
    if LostSince(states, steps, i, j, owner) {
      var k :| i <= k < j && Loses(states[k], steps[k], owner);
      RunKeepsInv(states, steps, k);
      OwnerLostIffLoses(states[k], steps[k], states[k + 1], owner);
      StaysGone(states, steps, k + 1, j, owner);
    } else if !Owns(states[j], owner) {
      var k := LeaseLostBetween(states, steps, i, j, owner);
    }
  }

  /** When any dispatch begins during an owner's, that owner's lease has been lost since it was last granted
      exactly if the row does not name it: something that can be checked before the dispatch. */
  lemma BeginAfterLossIff(states: seq<State>, steps: seq<Step>, j: nat, p: nat, q: nat) returns (a: nat)
    requires IsRun(states, steps) && j < |steps| && q < |states[j].invocations| && steps[j] == Do(q, BeginDispatch)
    requires p < |states[j].invocations| && Holds(states[j].invocations[p])
    ensures a < j && GrantsTo(states[a], steps[a], Owner(states[j], p))
    ensures NoGrants(states, steps, a + 1, j, Owner(states[j], p))
    ensures LostSince(states, steps, a + 1, j, Owner(states[j], p)) <==> !Owns(states[j], Owner(states[j], p))
  {
    var owner := Owner(states[j], p);
    var own := HolderAcquired(states, steps, j, p);
    a := LastGrant(states, steps, own, j, owner);
    GrantOwns(states[a], steps[a], states[a + 1], owner);
    LostIffGone(states, steps, a + 1, j, owner);
  }

  /** In particular a dispatch that begins under its own row begins during another owner's only if that other
      lease was lost since it was last granted. */
  lemma BeginUnderOwnRow(states: seq<State>, steps: seq<Step>, j: nat, p: nat, q: nat) returns (a: nat, k: nat)
    requires IsRun(states, steps) && j < |steps| && q < |states[j].invocations| && steps[j] == Do(q, BeginDispatch)
    requires p < |states[j].invocations| && Holds(states[j].invocations[p])
    requires Owns(states[j], Owner(states[j], q)) && Owner(states[j], p) != Owner(states[j], q)
    ensures a < k < j && GrantsTo(states[a], steps[a], Owner(states[j], p))
    ensures NoGrants(states, steps, a + 1, j, Owner(states[j], p)) && Loses(states[k], steps[k], Owner(states[j], p))
  {
    a := BeginAfterLossIff(states, steps, j, p, q);
    k :| a + 1 <= k < j && Loses(states[k], steps[k], Owner(states[j], p));
  }

  /** The late invocation acquires, and its lease expires. */
  lemma LateAcquires(late: Request) returns (states: seq<State>)
    requires !late.action.OtherAction?
    ensures |states| == 5 && states[0].invocations == []
    ensures Apply(states[0], Invoke(late, map[])) == Some(states[1])
    ensures Apply(states[1], Do(0, ReadClock)) == Some(states[2])
    ensures Apply(states[2], Do(0, AcquireWrite(Delivered))) == Some(states[3])
    ensures Apply(states[3], Tick(3601)) == Some(states[4])
    ensures states[4] == State(3601, Some(Row(LeaseOwner(late), 3600)), [Invocation(late, map[], Held)])
  {
    var s0 := State(0, None, []);
    var s1 := s0.(invocations := s0.invocations + [Invocation(late, map[], Entered)]);
    var s2 := Enter(s1, 0, Acquiring(0));
    var s3 := Acquired(s2, 0, 0, Delivered);
    assert s3.invocations == [Invocation(late, map[], Held)];
    states := [s0, s1, s2, s3, s3.(clock := 3601)];
  }

  /** Another acquires and begins, and then the late one begins too. */
  lemma PromptOverlaps(late: Request, prompt: Request, s4: State) returns (states: seq<State>)
    requires !late.action.OtherAction? && !prompt.action.OtherAction? && LeaseOwner(late) != LeaseOwner(prompt)
    requires s4 == State(3601, Some(Row(LeaseOwner(late), 3600)), [Invocation(late, map[], Held)])
    ensures |states| == 5
    ensures Apply(s4, Invoke(prompt, map[])) == Some(states[0])
    ensures Apply(states[0], Do(1, ReadClock)) == Some(states[1])
    ensures Apply(states[1], Do(1, AcquireWrite(Delivered))) == Some(states[2])
    ensures Apply(states[2], Do(1, BeginDispatch)) == Some(states[3])
    ensures Apply(states[3], Do(0, BeginDispatch)) == Some(states[4])
    ensures states[2].row == Some(Row(LeaseOwner(prompt), 7201))
    ensures states[3].invocations == [Invocation(late, map[], Held), Invocation(prompt, map[], Dispatching)]
  {
    var s5 := s4.(invocations := s4.invocations + [Invocation(prompt, map[], Entered)]);
    var s6 := Enter(s5, 1, Acquiring(3601));
    var s7 := Acquired(s6, 1, 3601, Delivered);
    assert s7.invocations == [Invocation(late, map[], Held), Invocation(prompt, map[], Held)];
    var s8 := Enter(s7, 1, Dispatching);
    states := [s5, s6, s7, s8, Enter(s8, 0, Dispatching)];
  }

  /** The row need not name the owner whose dispatch begins: an invocation that stalls between its answered
      write and its dispatch for longer than the lease lasts begins while another owner's lease is intact. */
  lemma StalledInvocationBeginsLate(late: Request, prompt: Request) returns (states: seq<State>, steps: seq<Step>)
    requires !late.action.OtherAction? && !prompt.action.OtherAction? && LeaseOwner(late) != LeaseOwner(prompt)
    ensures IsRun(states, steps) && |steps| == 9
    ensures steps[6] == Do(1, AcquireWrite(Delivered)) && steps[8] == Do(0, BeginDispatch)
    ensures |states[8].invocations| == 2 && states[8].invocations[1].phase == Dispatching
    ensures states[8].invocations[0].request == late && states[8].invocations[1].request == prompt
    ensures !LostSince(states, steps, 7, 8, Owner(states[8], 1))
  {
    var front := LateAcquires(late);
    var back := PromptOverlaps(late, prompt, front[4]);
    states := front + back;
    steps := [Invoke(late, map[]), Do(0, ReadClock), Do(0, AcquireWrite(Delivered)), Tick(3601), Invoke(prompt, map[]),
              Do(1, ReadClock), Do(1, AcquireWrite(Delivered)), Do(1, BeginDispatch), Do(0, BeginDispatch)];
    assert !Loses(states[7], steps[7], LeaseOwner(prompt));
  }

  // ----- Who releases ------------------------------------------------------------------------------

  /** Only a start whose handler threw, or a stop whose handler returned, ever releases. With the shared
      variable unset and a domain command configured, a start never does, and a stop releases having
      returned nothing: the throw is hidden either way. */
  lemma OnlyTheseRelease(states: seq<State>, steps: seq<Step>, k: nat)
    requires IsRun(states, steps) && k < |steps| && steps[k].Do? && steps[k].move.ReleaseWrite?
    ensures steps[k].p < |states[k].invocations|
    ensures var i := states[k].invocations[steps[k].p];
      && i.phase.Releasing?
      && (if i.request.action.StartInstance? then i.phase.completion.Threw?
          else i.request.action.StopInstance? && i.phase.completion.Returned?)
      && (NitroCommand !in i.vars && DomainCommand(i.vars, i.request.kind).Some? ==>
            i.request.action.StopInstance? && i.phase.completion == Returned(None))
  {
    RunKeepsInv(states, steps, k);
    assert Apply(states[k], steps[k]) == Some(states[k + 1]);
    assert InvocationOk(states[k].invocations[steps[k].p], states[k].clock);
  }

  lemma ReleasingStep(s: State, step: Step, s': State, p: nat)
    requires Apply(s, step) == Some(s') && p < |s.invocations| && s.invocations[p].phase.Releasing?
    ensures p < |s.invocations| <= |s'.invocations| && Owner(s', p) == Owner(s, p)
    ensures s'.invocations[p].phase == s.invocations[p].phase || s'.invocations[p].phase.Failed?
      || (step == Do(p, ReleaseWrite(Delivered)) && !Owns(s', Owner(s, p))
          && s'.invocations[p].phase == Done(s.invocations[p].phase.completion))
  {
    InvocationsPersist(s, step, s');
    if step.Do? && step.p == p {
      assert step.move.ReleaseWrite? || step.move.Fail?;
    }
  }

  /** An invocation that means to release and gets to its end has had its release answered, and the row did
      not name it then. */
  lemma {:induction false} ReleaseDone(states: seq<State>, steps: seq<Step>, i: nat, j: nat, p: nat) returns (k: nat)
    requires IsRun(states, steps) && i <= j < |states| && p < |states[i].invocations|
    requires states[i].invocations[p].phase.Releasing?
    requires p < |states[j].invocations| && states[j].invocations[p].phase.Done?
    ensures i <= k < j && steps[k] == Do(p, ReleaseWrite(Delivered))
    ensures p < |states[i].invocations| <= |states[k + 1].invocations| && !Owns(states[k + 1], Owner(states[i], p))
    ensures states[j].invocations[p].phase.completion == states[i].invocations[p].phase.completion
    decreases j - i
  {
    ReleasingStep(states[i], steps[i], states[i + 1], p);
    if states[i + 1].invocations[p].phase.Releasing? {
      k := ReleaseDone(states, steps, i + 1, j, p);
    } else if states[i + 1].invocations[p].phase.Done? {
      k := i;
      DoneStays(states, steps, i + 1, j, p);
    } else {
      FailedStays(states, steps, i + 1, j, p);
    }
  }

  lemma {:induction false} DoneStays(states: seq<State>, steps: seq<Step>, i: nat, j: nat, p: nat)
    requires IsRun(states, steps) && i <= j < |states| && p < |states[i].invocations|
    requires states[i].invocations[p].phase.Done?
    ensures p < |states[j].invocations| && states[j].invocations[p].phase == states[i].invocations[p].phase
    decreases j - i
  {
    if i < j {
      InvocationsPersist(states[i], steps[i], states[i + 1]);
      DoneStays(states, steps, i + 1, j, p);
    }
  }

  lemma {:induction false} FailedStays(states: seq<State>, steps: seq<Step>, i: nat, j: nat, p: nat)
    requires IsRun(states, steps) && i <= j < |states| && p < |states[i].invocations|
    requires states[i].invocations[p].phase.Failed?
    ensures p < |states[j].invocations| && states[j].invocations[p].phase.Failed?
    decreases j - i
  {
    if i < j {
      InvocationsPersist(states[i], steps[i], states[i + 1]);
      FailedStays(states, steps, i + 1, j, p);
    }
  }

  /** A stop whose handler threw leaves the row alone, and until some step loses that lease the same owner's
      retry is admitted, whatever time it read. */
  lemma RetryAdmittedAfterFailedStop(states: seq<State>, steps: seq<Step>, i: nat, j: nat, p: nat, now: nat)
    requires IsRun(states, steps) && i < j < |states| && steps[i].Do? && steps[i].p == p && steps[i].move.EndDispatch?
    requires p < |states[i].invocations| && p < |states[i + 1].invocations|
    requires states[i].invocations[p].request.action.StopInstance?
    requires states[i + 1].invocations[p].phase.Done? && states[i + 1].invocations[p].phase.completion.Threw?
    requires Owns(states[i], Owner(states[i], p))
    requires forall k :: i < k < j ==> !Loses(states[k], steps[k], Owner(states[i], p))
    ensures states[i + 1].row == states[i].row
    ensures Owns(states[j], Owner(states[i], p)) && AcquireAllowed(states[j].row, Owner(states[i], p), now)
  {
    if !Owns(states[j], Owner(states[i], p)) {
      var k := LeaseLostBetween(states, steps, i + 1, j, Owner(states[i], p));
    }
  }

  // ----- An invocation that nothing interleaves with ----------------------------------------------

  function After(s: State, steps: seq<Step>): Option<State>
    decreases |steps|
  {
    if |steps| == 0 then Some(s)
    else
      match Apply(s, steps[0])
      case None => None
      case Some(next) => After(next, steps[1..])
  }

  lemma OneMore(s: State, step: Step, next: State, rest: seq<Step>)
    requires Apply(s, step) == Some(next)
    ensures After(s, [step] + rest) == After(next, rest)
  {
    assert ([step] + rest)[1..] == rest;
  }

  /** Where an invocation that holds the lease, or needs none, ends when its callback has ended. */
  function Settled(s: State, p: nat, dispatched: Completion<string>): State
    requires p < |s.invocations|
  {
    var action := s.invocations[p].request.action;
    var releases := if action.StartInstance? then dispatched.Threw? else action.StopInstance? && dispatched.Returned?;
    Enter(if releases then s.(row := AfterRelease(s.row, Owner(s, p))) else s, p, Done(dispatched))
  }

  /** From the end of the callback on. */
  lemma SettleAlone(s: State, p: nat, callback: Completion<string>) returns (tail: seq<Step>)
    requires p < |s.invocations| && s.invocations[p].phase.Dispatching?
    ensures forall k :: 0 <= k < |tail| ==> tail[k].Do? && tail[k].p == p
    ensures var i := s.invocations[p];
            After(Ended(s, p, callback), tail) ==
            Some(Settled(s, p, NitroCompletion(i.vars, i.request.kind, _ => callback)))
  {
    var i := s.invocations[p];
    var dispatched := NitroCompletion(i.vars, i.request.kind, _ => callback);
    var ended := Ended(s, p, callback);
    tail := [];
    if ended.invocations[p].phase.Releasing? {
      tail := [Do(p, ReleaseWrite(Delivered))];
      OneMore(ended, tail[0], Released(ended, p, dispatched, Delivered), []);
      assert Released(ended, p, dispatched, Delivered) == Settled(s, p, dispatched);
    }
  }

  lemma DispatchAlone(s: State, p: nat, callback: Completion<string>) returns (steps: seq<Step>)
    requires p < |s.invocations|
    requires s.invocations[p].phase.Held?
             || (s.invocations[p].phase.Entered? && s.invocations[p].request.action.OtherAction?)
    ensures forall k :: 0 <= k < |steps| ==> steps[k].Do? && steps[k].p == p
    ensures var i := s.invocations[p];
            After(s, steps) == Some(Settled(s, p, NitroCompletion(i.vars, i.request.kind, _ => callback)))
  {
    var i := s.invocations[p];
    var dispatching := Enter(s, p, Dispatching);
    var tail := SettleAlone(dispatching, p, callback);
    OneMore(dispatching, Do(p, EndDispatch(callback)), Ended(dispatching, p, callback), tail);
    steps := [Do(p, BeginDispatch)] + ([Do(p, EndDispatch(callback))] + tail);
    OneMore(s, Do(p, BeginDispatch), dispatching, [Do(p, EndDispatch(callback))] + tail);
    SettledFromDispatching(s, p, NitroCompletion(i.vars, i.request.kind, _ => callback));
  }

  lemma SettledFromDispatching(s: State, p: nat, dispatched: Completion<string>)
    requires p < |s.invocations|
    ensures Settled(Enter(s, p, Dispatching), p, dispatched) == Settled(s, p, dispatched)
  {
  }

  /** The same for an invocation that has yet to ask for the lease. */
  lemma LeasedAlone(s: State, p: nat, callback: Completion<string>) returns (steps: seq<Step>)
    requires p < |s.invocations| && s.invocations[p].phase.Entered?
    requires !s.invocations[p].request.action.OtherAction?
    ensures forall k :: 0 <= k < |steps| ==> steps[k].Do? && steps[k].p == p
    ensures var i, acquired := s.invocations[p], Acquired(Enter(s, p, Acquiring(s.clock)), p, s.clock, Delivered);
            After(s, steps) == Some(
              if AcquireAllowed(s.row, Owner(s, p), s.clock)
              then Settled(acquired, p, NitroCompletion(i.vars, i.request.kind, _ => callback))
              else acquired)
  {
    var read := Enter(s, p, Acquiring(s.clock));
    var acquired := Acquired(read, p, s.clock, Delivered);
    var rest: seq<Step> := [];
    if AcquireAllowed(s.row, Owner(s, p), s.clock) {
      rest := DispatchAlone(acquired, p, callback);
    }
    OneMore(read, Do(p, AcquireWrite(Delivered)), acquired, rest);
    steps := [Do(p, ReadClock)] + ([Do(p, AcquireWrite(Delivered))] + rest);
    OneMore(s, Do(p, ReadClock), read, [Do(p, AcquireWrite(Delivered))] + rest);
  }

  /** What `RunnerLease.Handle` promises for a whole call, step by step: an invocation that nothing interleaves
      with and that is always answered leaves the row and the completion that the handler's contract states. */
  lemma UndisturbedIsHandle(s: State, p: nat, callback: Completion<string>) returns (steps: seq<Step>, end: State)
    requires p < |s.invocations| && s.invocations[p].phase.Entered?
    ensures forall k :: 0 <= k < |steps| ==> steps[k].Do? && steps[k].p == p
    ensures After(s, steps) == Some(end) && p < |end.invocations|
    ensures var i := s.invocations[p];
            var owner, dispatched := Owner(s, p), NitroCompletion(i.vars, i.request.kind, _ => callback);
            if i.request.action.OtherAction? then end.row == s.row && end.invocations[p].phase == Done(dispatched)
            else if !AcquireAllowed(s.row, owner, s.clock) then
              end.row == s.row && end.invocations[p].phase == Done(Returned(Some("refused")))
            else
              && end.invocations[p].phase == Done(dispatched)
              && end.row == if i.request.action.StartInstance? == dispatched.Threw? then None
                            else Some(Row(owner, s.clock + LEASE_TTL_SECONDS))
  {
    if s.invocations[p].request.action.OtherAction? {
      steps := DispatchAlone(s, p, callback);
    } else {
      steps := LeasedAlone(s, p, callback);
    }
    end := After(s, steps).value;
  }

  // ----- What may happen -----------------------------------------------------------------------------

  /** Which moves an invocation can make at which point: a request can be answered, lost or retried, and everything that
      is not over can fail. */
  lemma MovesEnabled(s: State, p: nat, move: Move)
    requires p < |s.invocations|
    ensures var phase, leased := s.invocations[p].phase, !s.invocations[p].request.action.OtherAction?;
            Moved(s, p, move).Some? <==>
            || (move.ReadClock? && phase.Entered? && leased) || (move.AcquireWrite? && phase.Acquiring?)
            || (move.BeginDispatch? && (phase.Held? || (phase.Entered? && !leased)))
            || (move.EndDispatch? && phase.Dispatching?) || (move.ReleaseWrite? && phase.Releasing?)
            || (move.Fail? && !phase.Done?)
  {
  }

  /** A write changes the row, or leaves it, whatever becomes of its answer; only a delivered answer lets the invocation
      go on, and a retried one comes back to the same request. */
  lemma AnswersComeLater(s: State, p: nat, answer: Answer)
    requires p < |s.invocations|
    ensures s.invocations[p].phase.Acquiring? ==>
              var now, d := s.invocations[p].phase.now, Moved(s, p, AcquireWrite(answer)).value;
              && d.row == AfterAcquire(s.row, Owner(s, p), now)
              && (answer.Retried? ==> d.invocations[p].phase == s.invocations[p].phase)
              && (answer.Lost? ==> d.invocations[p].phase.Failed?)
              && (answer.Delivered? ==> (d.invocations[p].phase.Held? <==> AcquireAllowed(s.row, Owner(s, p), now)))
    ensures s.invocations[p].phase.Releasing? ==>
              var d := Moved(s, p, ReleaseWrite(answer)).value;
              && d.row == AfterRelease(s.row, Owner(s, p))
              && (answer.Retried? ==> d.invocations[p].phase == s.invocations[p].phase)
              && (answer.Lost? ==> d.invocations[p].phase.Failed?)
              && (answer.Delivered? ==> d.invocations[p].phase == Done(s.invocations[p].phase.completion))
  {
  }
}

/** The handler that the earthquake and membership workflows share, its lease row, and the environment
    variable it sets around a domain handler
    (scripts/build_aws_sonari_verifier_runner_lambda.ts, the embedded runner workflow). */
module RunnerLease {
  import opened Prelude
  import Decimal

  // ----- The lease row -----------------------------------------------------------------------

  datatype Row = Row(owner: string, expiresAt: nat)

  const LEASE_TTL_SECONDS := 60 * 60

  /** The condition of the acquiring update. */
  predicate AcquireAllowed(row: Option<Row>, owner: string, now: nat) {
    row.None? || row.value.owner == owner || row.value.expiresAt < now
  }

  function AfterAcquire(row: Option<Row>, owner: string, now: nat): Option<Row> {
    if AcquireAllowed(row, owner, now) then Some(Row(owner, now + LEASE_TTL_SECONDS)) else row
  }

  /** The condition of the releasing delete. */
  predicate ReleaseAllowed(row: Option<Row>, owner: string) {
    row.Some? && row.value.owner == owner
  }

  function AfterRelease(row: Option<Row>, owner: string): Option<Row> {
    if ReleaseAllowed(row, owner) then None else row
  }

  class LeaseTable {
    var row: Option<Row>

    method Acquire(owner: string, nowSeconds: nat, expiresAtSeconds: nat) returns (acquired: bool)
      modifies this
      ensures acquired <==> old(row).None? || old(row).value.owner == owner || old(row).value.expiresAt < nowSeconds
      ensures row == if acquired then Some(Row(owner, expiresAtSeconds)) else old(row)
    {
      acquired := row.None? || row.value.owner == owner || row.value.expiresAt < nowSeconds;
      if acquired {
        row := Some(Row(owner, expiresAtSeconds));
      }
    }

    method Release(owner: string) returns (released: bool)
      modifies this
      ensures released <==> old(row).Some? && old(row).value.owner == owner
      ensures row == if released then None else old(row)
    {
      released := row.Some? && row.value.owner == owner;
      if released {
        row := None;
      }
    }
  }

  // ----- The environment around a domain handler -----------------------------------------------

  datatype VerifierKind = Earthquake | MembershipIdentity

  /** How a call ends; a returned `None` is JavaScript's `undefined`. */
  datatype Completion<T> = Returned(value: Option<T>) | Threw(error: string)

  datatype Variable = NitroCommand | EarthquakeNitroCommand | MembershipNitroCommand | OtherVariable(name: string)

  function DomainVariable(kind: VerifierKind): Variable {
    match kind case Earthquake => EarthquakeNitroCommand case MembershipIdentity => MembershipNitroCommand
  }

  /** `readDomainNitroCommand`: an empty domain variable is not replaced by the shared one. */
  function DomainCommand(vars: map<Variable, string>, kind: VerifierKind): Option<string> {
    var value :=
      if DomainVariable(kind) in vars then Some(vars[DomainVariable(kind)])
      else if NitroCommand in vars then Some(vars[NitroCommand])
      else None;
    if value.None? || value.value == "" then None else value
  }

  /** What leaves the `finally` block: its early `return` takes the place of the callback's completion. */
  function AfterFinally<T>(wasSet: bool, completion: Completion<T>): Completion<T> {
    if wasSet then completion else Returned(None)
  }

  function CommandMissing(kind: VerifierKind): string {
    (match kind
     case Earthquake => "EARTHQUAKE_NITRO_ENCLAVE_PROCESS_COMMAND"
     case MembershipIdentity => "MEMBERSHIP_NITRO_ENCLAVE_PROCESS_COMMAND")
    + " or NITRO_ENCLAVE_PROCESS_COMMAND is required"
  }

  function NitroCompletion<T>(vars: map<Variable, string>, kind: VerifierKind, callback: string -> Completion<T>)
    : Completion<T>
  {
    match DomainCommand(vars, kind)
    case None => Threw(CommandMissing(kind))
    case Some(command) => AfterFinally(NitroCommand in vars, callback(command))
  }

  class Environment {
    var vars: map<Variable, string>

    /** The callback is what the domain handler does with the command it finds in the environment. */
    method WithDomainNitroCommand<T>(kind: VerifierKind, callback: string -> Completion<T>)
      returns (completion: Completion<T>)
      modifies this
      ensures vars == old(vars)
      ensures completion == NitroCompletion(vars, kind, callback)
    {
      var command := DomainCommand(vars, kind);
      if command.None? {
        return Threw(CommandMissing(kind));
      }
      var previous := if NitroCommand in vars then Some(vars[NitroCommand]) else None;
      vars := vars[NitroCommand := command.value];
      completion := callback(vars[NitroCommand]);
      if previous.None? {
        vars := vars - {NitroCommand};
        return Returned(None);
      }
      vars := vars[NitroCommand := previous.value];
    }
  }

  /** Once a command is configured, the domain handler's completion gets through exactly when the shared
      variable was set beforehand, or when it was an empty return anyway. */
  lemma CompletionKeptIffSet<T>(vars: map<Variable, string>, kind: VerifierKind, callback: string -> Completion<T>)
    requires DomainCommand(vars, kind).Some?
    ensures NitroCompletion(vars, kind, callback) == callback(DomainCommand(vars, kind).value) <==>
            NitroCommand in vars || callback(DomainCommand(vars, kind).value) == Returned(None)
  {
  }

  /** The domain handler gets the command of its own variable, or of the shared one if its own is not set; an empty or
      missing command is refused by the name of the variable. */
  lemma CommandUsed<T>(vars: map<Variable, string>, kind: VerifierKind, callback: string -> Completion<T>)
    ensures var own := if kind.Earthquake? then EarthquakeNitroCommand else MembershipNitroCommand;
            var command := if own in vars then vars[own] else if NitroCommand in vars then vars[NitroCommand] else "";
            NitroCompletion(vars, kind, callback) ==
            if command == "" then
              Threw((if kind.Earthquake? then "EARTHQUAKE_NITRO_ENCLAVE_PROCESS_COMMAND"
                     else "MEMBERSHIP_NITRO_ENCLAVE_PROCESS_COMMAND")
                    + " or NITRO_ENCLAVE_PROCESS_COMMAND is required")
            else if NitroCommand in vars then callback(command)
            else Returned(None)
  {
  }

  // ----- Events and lease owners -----------------------------------------------------------------

  datatype AttemptField = Absent | Number(n: int) | Invalid

  datatype Event = Event(
    verifierKind: Option<string>,
    action: Option<string>,
    sourceEventId: Option<string>,
    jobId: Option<string>,
    attempt: AttemptField)

  datatype Action = StartInstance | StopInstance | OtherAction(name: string)

  datatype Request = Request(kind: VerifierKind, workflowId: string, attempt: nat, action: Action)

  function KindName(kind: VerifierKind): string {
    match kind case Earthquake => "earthquake" case MembershipIdentity => "membership_identity"
  }

  function ParseKind(s: Option<string>): Option<VerifierKind> {
    if s == Some("earthquake") then Some(Earthquake)
    else if s == Some("membership_identity") then Some(MembershipIdentity)
    else None
  }

  function ParseAction(s: string): Action {
    if s == "start_instance" then StartInstance
    else if s == "stop_instance" then StopInstance
    else OtherAction(s)
  }

  function ParseAttempt(a: AttemptField): Option<nat> {
    match a
    case Absent => Some(1)
    case Number(n) => if n < 1 then None else Some(n)
    case Invalid => None
  }

  /** `parseVerifierKind`, `readAction` and the checks of `buildLeaseOwner`; `None` where one throws. */
  function ParseEvent(e: Event): Option<Request> {
    var kind, attempt := ParseKind(e.verifierKind), ParseAttempt(e.attempt);
    if kind.None? || e.action.None? || e.action.value == "" then None
    else
      var id := if kind.value.Earthquake? then e.sourceEventId else e.jobId;
      if id.None? || id.value == "" || attempt.None? then None
      else Some(Request(kind.value, id.value, attempt.value, ParseAction(e.action.value)))
  }

  /** Which events are requests, and for what: by the text of the kind, the id in the field that kind reads, and the
      attempt, 1 where there is none; and by the text of the action whether it starts, stops or does neither. */
  lemma EventRequest(e: Event)
    ensures ParseEvent(e).Some? <==>
            && (|| (e.verifierKind == Some("earthquake") && e.sourceEventId.Some? && e.sourceEventId.value != "")
                || (e.verifierKind == Some("membership_identity") && e.jobId.Some? && e.jobId.value != ""))
            && e.action.Some? && e.action.value != ""
            && (e.attempt.Absent? || (e.attempt.Number? && e.attempt.n >= 1))
    ensures ParseEvent(e).Some? ==>
              var r := ParseEvent(e).value;
              && (r.kind.Earthquake? <==> e.verifierKind == Some("earthquake"))
              && Some(r.workflowId) == (if r.kind.Earthquake? then e.sourceEventId else e.jobId)
              && r.attempt == (if e.attempt.Absent? then 1 else e.attempt.n)
              && (r.action.StartInstance? <==> e.action == Some("start_instance"))
              && (r.action.StopInstance? <==> e.action == Some("stop_instance"))
              && (r.action.OtherAction? ==> e.action == Some(r.action.name))
  {
    KindTextsDiffer();
  }

  lemma KindTextsDiffer()
    ensures "earthquake" != "membership_identity" && "start_instance" != "stop_instance"
  {
    assert "earthquake"[0] != "membership_identity"[0] && "start_instance"[2] != "stop_instance"[2];
  }

  /** `buildSharedRunnerLeaseOwner`. */
  function LeaseOwner(r: Request): string {
    KindName(r.kind) + ":" + r.workflowId + ":" + Decimal.Print(r.attempt)
  }

  lemma LeaseOwnerText(r: Request)
    ensures r.kind.Earthquake? ==> LeaseOwner(r) == "earthquake:" + (r.workflowId + ":" + Decimal.Print(r.attempt))
    ensures r.kind.MembershipIdentity? ==>
              LeaseOwner(r) == "membership_identity:" + (r.workflowId + ":" + Decimal.Print(r.attempt))
  {
    KindPrefix("earthquake", r.workflowId, Decimal.Print(r.attempt));
    KindPrefix("membership_identity", r.workflowId, Decimal.Print(r.attempt));
    assert "earthquake" + ":" == "earthquake:" && "membership_identity" + ":" == "membership_identity:";
  }

  lemma KindPrefix(kind: string, id: string, attempt: string)
    ensures kind + ":" + id + ":" + attempt == (kind + ":") + (id + ":" + attempt)
  {
  }

  lemma SuffixAfterLastColon(front: string, back: string, front': string, back': string)
    requires front + ":" + back == front' + ":" + back'
    requires ':' !in back && ':' !in back'
    ensures front == front' && back == back'
  {
    var s := front + ":" + back;
    assert s[|front|] == ':' && s[|front'|] == (front' + ":" + back')[|front'|];
    assert |front| == |front'|;
    assert front == s[..|front|] && back == s[|front| + 1..];
  }

  lemma KindAndIdFromFront(a: VerifierKind, id: string, b: VerifierKind, id': string)
    requires KindName(a) + ":" + id == KindName(b) + ":" + id'
    ensures a == b && id == id'
  {
    var s, t := KindName(a) + ":" + id, KindName(b) + ":" + id';
    assert s[0] == KindName(a)[0] && t[0] == KindName(b)[0];
    assert KindName(Earthquake)[0] == 'e' && KindName(MembershipIdentity)[0] == 'm';
    assert id == s[|KindName(a)| + 1..] && id' == t[|KindName(b)| + 1..];
  }

  /** Two invocations share a lease owner exactly when they are the same attempt at the same workflow,
      even if workflow ids contain colons. */
  lemma LeaseOwnerInjective(r: Request, r': Request)
    ensures LeaseOwner(r) == LeaseOwner(r') <==>
            r.kind == r'.kind && r.workflowId == r'.workflowId && r.attempt == r'.attempt
  {
    if LeaseOwner(r) == LeaseOwner(r') {
      var digits, digits' := Decimal.Print(r.attempt), Decimal.Print(r'.attempt);
      SuffixAfterLastColon(KindName(r.kind) + ":" + r.workflowId, digits,
                           KindName(r'.kind) + ":" + r'.workflowId, digits');
      KindAndIdFromFront(r.kind, r.workflowId, r'.kind, r'.workflowId);
      Decimal.PrintInjective(r.attempt, r'.attempt);
    }
  }

  // ----- One invocation, undisturbed ----------------------------------------------------------------

  datatype Response<T> = CapacityBusy | StopNoop | Domain(result: T)

  function Wrap<T>(c: Completion<T>): Completion<Response<T>> {
    match c
    case Threw(error) => Threw(error)
    case Returned(None) => Returned(None)
    case Returned(Some(value)) => Returned(Some(Domain(value)))
  }

  method Handle<T>(table: LeaseTable, env: Environment, event: Event, nowSeconds: nat, domain: string -> Completion<T>)
    returns (completion: Completion<Response<T>>)
    modifies table, env
    ensures env.vars == old(env.vars)
    ensures ParseEvent(event).None? ==> completion.Threw? && table.row == old(table.row)
    ensures ParseEvent(event).Some? ==>
      var r := ParseEvent(event).value;
      var owner, dispatched := LeaseOwner(r), NitroCompletion(env.vars, r.kind, domain);
      var admitted := old(table.row).None? || old(table.row).value.owner == owner
                      || old(table.row).value.expiresAt < nowSeconds;
      var starts, stops := event.action == Some("start_instance"), event.action == Some("stop_instance");
      if !starts && !stops then completion == Wrap(dispatched) && table.row == old(table.row)
      else if !admitted then
        table.row == old(table.row) && completion == Returned(Some(if starts then CapacityBusy else StopNoop))
      else
        && completion == Wrap(dispatched)
        && table.row == if starts == dispatched.Threw? then None else Some(Row(owner, nowSeconds + 3_600))
  {
    var request := ParseEvent(event);
    if request.None? {
      return Threw("invalid runner event");
    }
    EventRequest(event);
    KindTextsDiffer();
    var r := request.value;
    var owner := LeaseOwner(r);
    var dispatched;
    if r.action.StartInstance? {
      var acquired := table.Acquire(owner, nowSeconds, nowSeconds + LEASE_TTL_SECONDS);
      if !acquired {
        return Returned(Some(CapacityBusy));
      }
      dispatched := env.WithDomainNitroCommand(r.kind, domain);
      if dispatched.Threw? {
        var _ := table.Release(owner);
      }
      return Wrap(dispatched);
    }
    if r.action.StopInstance? {
      var ownsLease := table.Acquire(owner, nowSeconds, nowSeconds + LEASE_TTL_SECONDS);
      if !ownsLease {
        return Returned(Some(StopNoop));
      }
      dispatched := env.WithDomainNitroCommand(r.kind, domain);
      if dispatched.Returned? {
        var _ := table.Release(owner);
      }
      return Wrap(dispatched);
    }
    dispatched := env.WithDomainNitroCommand(r.kind, domain);
    completion := Wrap(dispatched);
  }
}

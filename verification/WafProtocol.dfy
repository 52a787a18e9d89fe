/** The apply and remove calls as small step machines over the shared service, one service call
    per step and one step for the return of ensure_ip_set, and their runs under every interleaving
    (scripts/perf_waf_allowlist.py). */
module WafProtocol {
  import opened Common
  import opened WafServer

  datatype Call =
    | Apply(cidrs: seq<Cidr>, priority: int, retries: int)
    | Remove(retries: int)

  /** How the service answers a call: truthfully, with a retryable error (a lock error, or an entity
      not yet retrievable), or with any other error. An error has no effect on the service. */
  datatype Fault = NoFault | Retryable | Fatal

  datatype Reason = OutOfRetries | BadUsage | Refused

  /** Where a call stands. `tries` counts the attempts begun in the current retry loop. */
  datatype Pc =
    | Finding
    | Creating
    | MergeFetch(id: nat, tries: nat)
    | MergeStore(id: nat, tries: nat, current: seq<Cidr>, token: nat)
    | Merged(arn: nat)  // ensure_ip_set has returned
    | RuleFetch(arn: nat, tries: nat)
    | RuleStore(arn: nat, tries: nat, acl: WebAcl, token: nat)
    | UnlinkFetch(tries: nat)
    | UnlinkStore(tries: nat, acl: WebAcl, token: nat)
    | DeleteFinding(unlinked: bool)
    | DeleteFetch(id: nat, tries: nat, unlinked: bool)
    | DeleteStore(id: nat, tries: nat, token: nat, unlinked: bool)
    | Returned(changed: bool)
    | Raised(reason: Reason)

  predicate InIpSetPhase(pc: Pc) {
    pc.Finding? || pc.Creating? || pc.MergeFetch? || pc.MergeStore?
  }

  predicate InRulePhase(pc: Pc) {
    pc.Merged? || pc.RuleFetch? || pc.RuleStore?
  }

  predicate InRemovePhase(pc: Pc) {
    pc.UnlinkFetch? || pc.UnlinkStore? || pc.DeleteFinding? || pc.DeleteFetch? || pc.DeleteStore?
  }

  function Start(call: Call): Pc {
    if call.Apply? then Finding else Retry(UnlinkFetch(0), 0, call.retries)
  }

  /** Begin another attempt if fewer than retries + 1 have been begun. */
  function Retry(fetch: Pc, tries: nat, retries: int): Pc {
    if tries <= retries then fetch else Raised(OutOfRetries)
  }

  /** ensure_allow_rule checks the priority before its first attempt. */
  function EnterRule(call: Call, arn: nat): Pc
    requires call.Apply?
  {
    if call.priority >= RATE_RULE_PRIORITY then Raised(BadUsage)
    else Retry(RuleFetch(arn, 0), 0, call.retries)
  }

  predicate Holds(s: Server, id: nat) {
    s.ipSet.Some? && s.ipSet.value.id == id
  }

  // ---------------------------------------------------------------- one step of apply

  function IpSetStep(call: Call, pc: Pc, s: Server, f: Fault): (Pc, Server)
    requires call.Apply? && InIpSetPhase(pc)
  {
    match pc
    case Finding =>
      if f != NoFault then (Raised(Refused), s)
      else if s.ipSet.None? then (Creating, s)
      else if call.cidrs == [] then (Merged(s.ipSet.value.id), s)
      else (Retry(MergeFetch(s.ipSet.value.id, 0), 0, call.retries), s)
    case Creating =>
      if f != NoFault || s.ipSet.Some? then (Raised(Refused), s)  // a duplicate create is refused
      else
        var id := s.ipToken + 1;
        (Merged(id), s.(ipSet := Some(IpSet(id, Dedupe(call.cidrs))), ipToken := id))
    case MergeFetch(id, tries) =>
      if f == Retryable then (Retry(MergeFetch(id, tries + 1), tries + 1, call.retries), s)
      else if f == Fatal || !Holds(s, id) then (Raised(Refused), s)
      else if Dedupe(s.ipSet.value.addresses + call.cidrs) == s.ipSet.value.addresses then
        (Merged(id), s)
      else (MergeStore(id, tries + 1, s.ipSet.value.addresses, s.ipToken), s)
    case MergeStore(id, tries, current, token) =>
      if f == Fatal || !Holds(s, id) then (Raised(Refused), s)
      else if f == Retryable || token != s.ipToken then
        (Retry(MergeFetch(id, tries), tries, call.retries), s)
      else
        (Merged(id),
         s.(ipSet := Some(IpSet(id, Dedupe(current + call.cidrs))), ipToken := s.ipToken + 1))
  }

  function RuleStep(ruleName: string, call: Call, pc: Pc, s: Server, f: Fault): (Pc, Server)
    requires call.Apply? && InRulePhase(pc)
  {
    match pc
    case Merged(arn) => (EnterRule(call, arn), s)
    case RuleFetch(arn, tries) =>
      if f == Retryable then (Retry(RuleFetch(arn, tries + 1), tries + 1, call.retries), s)
      else if f == Fatal then (Raised(Refused), s)
      else
        (match ScanRules(s.acl.rules, ruleName, call.priority)
         case Present => Returned(false)
         case Collision => Raised(BadUsage)
         case Clear => RuleStore(arn, tries + 1, s.acl, s.aclToken),
         s)
    case RuleStore(arn, tries, acl, token) =>
      if f == Fatal then (Raised(Refused), s)
      else if f == Retryable || token != s.aclToken then
        (Retry(RuleFetch(arn, tries), tries, call.retries), s)
      else
        (Returned(true),
         s.(acl := Echo(acl, acl.rules + [BuildAllowRule(ruleName, call.priority, arn)]),
            aclToken := s.aclToken + 1))
  }

  // ---------------------------------------------------------------- one step of remove

  function RemoveStep(ruleName: string, call: Call, pc: Pc, s: Server, f: Fault): (Pc, Server)
    requires call.Remove? && InRemovePhase(pc)
  {
    match pc
    case UnlinkFetch(tries) =>
      if f == Retryable then (Retry(UnlinkFetch(tries + 1), tries + 1, call.retries), s)
      else if f == Fatal then (Raised(Refused), s)
      else if |Others(s.acl.rules, ruleName)| == |s.acl.rules| then (DeleteFinding(false), s)
      else (UnlinkStore(tries + 1, s.acl, s.aclToken), s)
    case UnlinkStore(tries, acl, token) =>
      if f == Fatal then (Raised(Refused), s)
      else if f == Retryable || token != s.aclToken then
        (Retry(UnlinkFetch(tries), tries, call.retries), s)
      else
        (DeleteFinding(true),
         s.(acl := Echo(acl, Others(acl.rules, ruleName)), aclToken := s.aclToken + 1))
    case DeleteFinding(unlinked) =>
      if f != NoFault then (Raised(Refused), s)
      else if s.ipSet.None? then (Returned(unlinked), s)
      else (Retry(DeleteFetch(s.ipSet.value.id, 0, unlinked), 0, call.retries), s)
    case DeleteFetch(id, tries, unlinked) =>
      if f == Retryable then (Retry(DeleteFetch(id, tries + 1, unlinked), tries + 1, call.retries), s)
      else if f == Fatal then (Raised(Refused), s)
      else if !Holds(s, id) then (Returned(unlinked), s)  // already gone: a clean no-op
      else (DeleteStore(id, tries + 1, s.ipToken, unlinked), s)
    case DeleteStore(id, tries, token, unlinked) =>
      if f == Fatal then (Raised(Refused), s)
      else if f == NoFault && !Holds(s, id) then (Returned(unlinked), s)
      else if f == Retryable || token != s.ipToken then
        (Retry(DeleteFetch(id, tries, unlinked), tries, call.retries), s)
      else (Returned(unlinked), s.(ipSet := None, ipToken := s.ipToken + 1))
  }

  /** One service call made by one tool invocation; a finished invocation stays put. */
  function Step(ruleName: string, call: Call, pc: Pc, s: Server, f: Fault): (Pc, Server) {
    if call.Apply? && InIpSetPhase(pc) then IpSetStep(call, pc, s, f)
    else if call.Apply? && InRulePhase(pc) then RuleStep(ruleName, call, pc, s, f)
    else if call.Remove? && InRemovePhase(pc) then RemoveStep(ruleName, call, pc, s, f)
    else (pc, s)
  }

  // ---------------------------------------------------------------- interleaved runs

  /** The calls in progress: the IPSet name is fixed by the one `ipSet` slot of the server. */
  datatype System = System(server: Server, pcs: seq<Pc>)

  /** Which call moves next, and how the service answers it. */
  datatype Move = Move(who: nat, fault: Fault)

  function Begin(s: Server, calls: seq<Call>): System {
    System(s, seq(|calls|, i requires 0 <= i < |calls| => Start(calls[i])))
  }

  function Advance(ruleName: string, calls: seq<Call>, sys: System, m: Move): System
    requires |sys.pcs| == |calls|
  {
    if m.who >= |calls| then sys
    else
      var (pc, server) := Step(ruleName, calls[m.who], sys.pcs[m.who], sys.server, m.fault);
      System(server, sys.pcs[m.who := pc])
  }

  /** The state after the moves in `schedule`. Every interleaving is some schedule. */
  function Run(ruleName: string, calls: seq<Call>, s: Server, schedule: seq<Move>): (sys: System)
    ensures |sys.pcs| == |calls|
  {
    if schedule == [] then Begin(s, calls)
    else Advance(ruleName, calls, Run(ruleName, calls, s, schedule[..|schedule| - 1]),
                 schedule[|schedule| - 1])
  }
}

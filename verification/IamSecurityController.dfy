/**
  Authorisation and the audit ring of src/IamSecurityController.cpp.

  The ring is written without a test for full.  It behaves like a queue that silently
  empties itself whenever a 128th entry would have to wait.
 */
module IamSecurityController {
  import opened GatewayTypes
  import opened Modulo

  const MAX_POLICIES: nat := 64
  const MAX_AUDIT_LOG_ENTRIES: nat := 128
  const ANY_METHOD: bv16 := 0xFFFF

  datatype Policy = Policy(principalId: bv32, serviceId: bv16, methodId: bv16, allowed: bv8)
  datatype Request = Request(principalId: bv32, serviceId: bv16, methodId: bv16, action: bv8)
  datatype AuditEntry = AuditEntry(request: Request, granted: bool, timestampNs: nat)

  // ------------------------------------------------------------------
  // First match
  // ------------------------------------------------------------------

  predicate Matches(p: Policy, r: Request) {
    && p.principalId == r.principalId
    && p.serviceId == r.serviceId
    && (p.methodId == ANY_METHOD || p.methodId == r.methodId)
  }

  predicate HasAction(granted: bv8, requested: bv8) {
    granted & requested != 0
  }

  /** The position of the first policy that matches, or |policies|. */
  function FirstMatch(policies: seq<Policy>, r: Request): (i: nat)
    ensures i <= |policies|
    ensures i < |policies| ==> Matches(policies[i], r)
    ensures forall k :: 0 <= k < i ==> !Matches(policies[k], r)
  {
    if policies == [] || Matches(policies[0], r) then 0
    else
      var i := FirstMatch(policies[1..], r);
      assert forall k :: 1 <= k <= i ==> policies[k] == policies[1..][k - 1];
      i + 1
  }

  /** Denied by default; otherwise the first matching policy alone decides. */
  function Granted(policies: seq<Policy>, r: Request): bool {
    var i := FirstMatch(policies, r);
    i < |policies| && HasAction(policies[i].allowed, r.action)
  }

  /** A policy added behind a matching one never changes a decision. */
  lemma FirstMatchDecides(policies: seq<Policy>, more: seq<Policy>, r: Request)
    ensures FirstMatch(policies, r) < |policies| ==> Granted(policies + more, r) == Granted(policies, r)
    ensures FirstMatch(policies, r) == |policies| ==> !Granted(policies, r)
  {
    hide FirstMatch, HasAction;
    var i := FirstMatch(policies, r);
    if i < |policies| {
      var both := policies + more;
      assert forall k :: 0 <= k < i ==> both[k] == policies[k];
      assert both[i] == policies[i];
      assert FirstMatch(both, r) == i;
    }
  }

  const READ: bv8 := 0x01
  const ALL_ACTIONS: bv8 := 0x0F

  predicate SingleAction(bit: bv8) {
    bit != 0 && bit & (bit - 1) == 0
  }

  /** Which policy decides does not depend on the action asked for. */
  lemma {:induction false} FirstMatchAction(policies: seq<Policy>, r: Request, action: bv8)
    ensures FirstMatch(policies, r.(action := action)) == FirstMatch(policies, r)
    decreases |policies|
  {
    if policies != [] { FirstMatchAction(policies[1..], r, action); }
  }

  lemma LowestCommonAction(granted: bv8, requested: bv8) returns (bit: bv8)
    requires granted & requested != 0
    ensures SingleAction(bit) && bit & requested != 0 && granted & bit != 0
  {
    var both := granted & requested;
    bit := both & (0 - both);
  }

  lemma CommonAction(granted: bv8, requested: bv8, bit: bv8)
    requires SingleAction(bit) && bit & requested != 0 && granted & bit != 0
    ensures granted & requested != 0
  {
  }

  lemma AnyActionOf(allowed: bv8, requested: bv8)
    ensures HasAction(allowed, requested)
            <==> exists bit :: SingleAction(bit) && bit & requested != 0 && HasAction(allowed, bit)
  {
    hide SingleAction;
    if HasAction(allowed, requested) {
      var bit := LowestCommonAction(allowed, requested);
      assert HasAction(allowed, bit);
    }
    forall bit | SingleAction(bit) && bit & requested != 0 && HasAction(allowed, bit)
      ensures HasAction(allowed, requested)
    {
      CommonAction(allowed, requested, bit);
    }
  }

  /**
    Any one allowed action is enough: a request for several actions at once is granted if
    and only if the request for some single one of them would be.
   */
  lemma AnyActionSuffices(policies: seq<Policy>, r: Request)
    ensures Granted(policies, r) <==>
      exists bit :: SingleAction(bit) && bit & r.action != 0 && Granted(policies, r.(action := bit))
  {
    hide FirstMatch, SingleAction;
    forall bit: bv8 ensures FirstMatch(policies, r.(action := bit)) == FirstMatch(policies, r) {
      FirstMatchAction(policies, r, bit);
    }
    var i := FirstMatch(policies, r);
    if i < |policies| { AnyActionOf(policies[i].allowed, r.action); }
  }

  /** So least privilege fails: a policy that allows reading alone grants a request for all actions. */
  lemma ReadGrantsAll(p: Policy, more: seq<Policy>, r: Request)
    requires Matches(p, r) && p.allowed == READ && r.action == ALL_ACTIONS
    ensures Granted([p] + more, r)
  {
    assert FirstMatch([p] + more, r) == 0;
  }

  // ------------------------------------------------------------------
  // What a grant means, field by field
  // ------------------------------------------------------------------

  /**
    A request is granted if and only if the first policy that names its principal, its
    service and its method or any method allows one of the actions asked for.
   */
  lemma GrantedExactly(policies: seq<Policy>, r: Request)
    ensures Granted(policies, r) <==>
      exists k :: 0 <= k < |policies|
        && policies[k].principalId == r.principalId && policies[k].serviceId == r.serviceId
        && (policies[k].methodId == r.methodId || policies[k].methodId == 0xFFFF)
        && policies[k].allowed & r.action != 0
        && forall j :: 0 <= j < k ==>
             !(policies[j].principalId == r.principalId && policies[j].serviceId == r.serviceId
               && (policies[j].methodId == r.methodId || policies[j].methodId == 0xFFFF))
  {
    hide FirstMatch;
    var i := FirstMatch(policies, r);
    forall k | 0 <= k < |policies| && Matches(policies[k], r) && forall j :: 0 <= j < k ==> !Matches(policies[j], r)
      ensures k == i
    {
    }
  }

  /** A policy that allows reading alone, in front, denies writing, executing and administration. */
  lemma ReadOnlyDenies(p: Policy, more: seq<Policy>, r: Request)
    requires p.principalId == r.principalId && p.serviceId == r.serviceId
    requires p.methodId == r.methodId || p.methodId == 0xFFFF
    requires p.allowed == 0x01 && (r.action == 0x02 || r.action == 0x04 || r.action == 0x08)
    ensures !Granted([p] + more, r)
  {
    hide FirstMatch;
    assert ([p] + more)[0] == p && Matches(p, r);
    assert FirstMatch([p] + more, r) == 0;
  }

  /** A principal without a policy of its own, or a service nobody has a policy for, is denied everything. */
  lemma StrangerDenied(policies: seq<Policy>, r: Request)
    requires forall k :: 0 <= k < |policies| ==>
      policies[k].principalId != r.principalId || policies[k].serviceId != r.serviceId
    ensures !Granted(policies, r)
  {
    hide FirstMatch;
  }

  // ------------------------------------------------------------------
  // The queue the ring behaves like
  // ------------------------------------------------------------------

  function Appended(pending: seq<AuditEntry>, e: AuditEntry): seq<AuditEntry> {
    if |pending| == MAX_AUDIT_LOG_ENTRIES - 1 then [] else pending + [e]
  }

  /** The entries from tail up to head, around the end of the array. */
  function Window(log: seq<AuditEntry>, head: nat, tail: nat): (p: seq<AuditEntry>)
    requires |log| == MAX_AUDIT_LOG_ENTRIES && head < |log| && tail < |log|
    ensures |p| < MAX_AUDIT_LOG_ENTRIES
  {
    if tail <= head then log[tail..head] else log[tail..] + log[..head]
  }

  /** Writing at head and moving it on, full or not. */
  lemma WindowAppend(log: seq<AuditEntry>, head: nat, tail: nat, e: AuditEntry)
    requires |log| == MAX_AUDIT_LOG_ENTRIES && head < |log| && tail < |log|
    ensures Window(log[head := e], (head + 1) % MAX_AUDIT_LOG_ENTRIES, tail) == Appended(Window(log, head, tail), e)
  {
    if tail > head {
      AppendBehind(log, head, tail, e);
    } else {
      AppendAhead(log, head, tail, e);
    }
  }

  lemma AppendBehind(log: seq<AuditEntry>, head: nat, tail: nat, e: AuditEntry)
    requires |log| == MAX_AUDIT_LOG_ENTRIES && head < tail < |log|
    ensures Window(log[head := e], head + 1, tail) == Appended(Window(log, head, tail), e)
  {
    var after := log[head := e];
    assert after[tail..] == log[tail..];
    assert after[..head + 1] == log[..head] + [e];
    if head + 1 < tail {
      assert log[tail..] + (log[..head] + [e]) == log[tail..] + log[..head] + [e];
    }
  }

  lemma AppendAhead(log: seq<AuditEntry>, head: nat, tail: nat, e: AuditEntry)
    requires |log| == MAX_AUDIT_LOG_ENTRIES && tail <= head < |log|
    ensures Window(log[head := e], (head + 1) % MAX_AUDIT_LOG_ENTRIES, tail) == Appended(Window(log, head, tail), e)
  {
    var after := log[head := e];
    if head + 1 < |log| {
      assert after[tail..head + 1] == log[tail..head] + [e];
    } else {
      assert after[tail..] == log[tail..head] + [e];
      assert tail > 0 ==> after[tail..] + after[..0] == log[tail..head] + [e];
    }
  }

  /** Moving tail on drops the oldest entry. */
  lemma WindowDrain(log: seq<AuditEntry>, head: nat, tail: nat)
    requires |log| == MAX_AUDIT_LOG_ENTRIES && head < |log| && tail < |log|
    ensures head == tail <==> Window(log, head, tail) == []
    ensures head != tail ==>
      && Window(log, head, tail)[0] == log[tail]
      && Window(log, head, (tail + 1) % MAX_AUDIT_LOG_ENTRIES) == Window(log, head, tail)[1..]
  {
    if head != tail {
      var w := Window(log, head, tail);
      if tail < head {
        assert w[1..] == log[tail + 1..head];
      } else if tail + 1 < |log| {
        assert w[1..] == log[tail + 1..] + log[..head];
      } else {
        assert w[1..] == log[..head];
      }
    }
  }

  lemma DropOne(p: seq<AuditEntry>, n: nat)
    requires n <= |p|
    ensures p[n..] == [] <==> n == |p|
    ensures n < |p| ==> p[n..][0] == p[n] && p[n..][1..] == p[n + 1..]
  {
  }

  class Controller {
    const policies: array<Policy>
    const auditLog: array<AuditEntry>
    var policyCount: nat
    var auditHead: nat
    var auditTail: nat
    var initialised: bool

    constructor ()
      ensures fresh(policies) && fresh(auditLog) && !initialised && Valid() && Pending() == [] && Rules() == []
    {
      policies := new Policy[MAX_POLICIES](_ => Policy(0xFFFF_FFFF, 0xFFFF, 0xFFFF, 0));
      auditLog := new AuditEntry[MAX_AUDIT_LOG_ENTRIES](_ => AuditEntry(Request(0, 0, 0, 0), false, 0));
      policyCount, auditHead, auditTail, initialised := 0, 0, 0, false;
    }

    ghost predicate Valid()
      reads this
    {
      && policies.Length == MAX_POLICIES && auditLog.Length == MAX_AUDIT_LOG_ENTRIES
      && policyCount <= MAX_POLICIES
      && auditHead < MAX_AUDIT_LOG_ENTRIES && auditTail < MAX_AUDIT_LOG_ENTRIES
    }

    /** The entries between tail and head, oldest first. */
    ghost function Pending(): (p: seq<AuditEntry>)
      requires Valid()
      reads this, auditLog
    {
      Window(auditLog[..], auditHead, auditTail)
    }

    ghost function Rules(): seq<Policy>
      requires Valid()
      reads this, policies
    {
      policies[..policyCount]
    }

    /** src/IamSecurityController.cpp, Init. */
    method Init() returns (r: VoidResult)
      requires Valid()
      modifies this
      ensures Valid() && initialised
      ensures r == if old(initialised) then Err(AlreadyRegistered) else Ok
      ensures r == Ok ==> Rules() == [] && Pending() == []
      ensures r != Ok ==> unchanged(this)
    {
      if initialised { return Err(AlreadyRegistered); }
      initialised := true;
      policyCount, auditHead, auditTail := 0, 0, 0;
      return Ok;
    }

    /** src/IamSecurityController.cpp, AddPolicy. */
    method AddPolicy(entry: Policy) returns (r: VoidResult)
      requires Valid()
      modifies `policyCount, policies
      ensures Valid()
      ensures r == if !initialised then Err(NotInitialized)
                   else if |old(Rules())| == MAX_POLICIES then Err(RegistryFull) else Ok
      ensures Rules() == if r == Ok then old(Rules()) + [entry] else old(Rules())
    {
      if !initialised { return Err(NotInitialized); }
      if policyCount >= MAX_POLICIES { return Err(RegistryFull); }
      policies[policyCount] := entry;
      policyCount := policyCount + 1;
      return Ok;
    }

    /** src/IamSecurityController.cpp, AppendAuditEntry. */
    method AppendAuditEntry(e: AuditEntry)
      requires Valid()
      modifies `auditHead, auditLog
      ensures Valid() && Pending() == Appended(old(Pending()), e)
    {
      hide Window, Appended;
      WindowAppend(auditLog[..], auditHead, auditTail, e);
      ghost var log := auditLog[..];
      var head := auditHead;
      var nextHead := (head + 1) % MAX_AUDIT_LOG_ENTRIES;
      auditLog[head] := e;
      auditHead := nextHead;
      assert auditLog[..] == log[head := e];
    }

    /** src/IamSecurityController.cpp, Authorise. */
    method Authorise(request: Request, now: nat) returns (r: VoidResult)
      requires Valid()
      modifies `auditHead, auditLog
      ensures Valid()
      ensures r == if !initialised then Err(NotInitialized)
                   else if Granted(Rules(), request) then Ok else Err(Unauthorized)
      ensures Pending() == if !initialised then old(Pending())
                           else Appended(old(Pending()), AuditEntry(request, Granted(Rules(), request), now))
    {
      hide FirstMatch, HasAction, Appended;
      if !initialised { return Err(NotInitialized); }
      ghost var rules := Rules();
      var i := 0;
      while i < policyCount
        invariant 0 <= i <= policyCount && Valid() && Rules() == rules
        invariant Pending() == old(Pending()) && auditHead == old(auditHead)
        invariant forall k :: 0 <= k < i ==> !Matches(rules[k], request)
      {
        var p := policies[i];
        var principalMatch := p.principalId == request.principalId;
        var serviceMatch := p.serviceId == request.serviceId;
        var methodMatch := p.methodId == ANY_METHOD || p.methodId == request.methodId;
        if principalMatch && serviceMatch && methodMatch {
          assert Matches(rules[i], request) && FirstMatch(rules, request) == i;
          if HasAction(p.allowed, request.action) {
            AppendAuditEntry(AuditEntry(request, true, now));
            return Ok;
          }
          AppendAuditEntry(AuditEntry(request, false, now));
          return Err(Unauthorized);
        }
        i := i + 1;
      }
      AppendAuditEntry(AuditEntry(request, false, now));
      return Err(Unauthorized);
    }

    /** src/IamSecurityController.cpp, DrainAuditLog; the buffer size is the array's length. */
    method DrainAuditLog(buffer: array?<AuditEntry>) returns (copied: nat)
      requires Valid() && buffer != auditLog
      modifies `auditTail, if buffer == null then {} else {buffer}
      ensures Valid()
      ensures copied == if buffer == null then 0 else Min(buffer.Length, |old(Pending())|)
      ensures Pending() == old(Pending())[copied..]
      ensures buffer != null ==>
        && buffer[..copied] == old(Pending())[..copied]
        && forall k :: copied <= k < buffer.Length ==> buffer[k] == old(buffer[k])
    {
      hide Window;
      ghost var before, log := Pending(), auditLog[..];
      copied := 0;
      if buffer == null { return; }
      while copied < buffer.Length
        invariant 0 <= copied <= buffer.Length && copied <= |before| && Valid()
        invariant auditLog[..] == log && auditHead == old(auditHead)
        invariant Window(log, auditHead, auditTail) == before[copied..]
        invariant forall k :: 0 <= k < copied ==> buffer[k] == before[k]
        invariant forall k :: copied <= k < buffer.Length ==> buffer[k] == old(buffer[k])
      {
        WindowDrain(log, auditHead, auditTail);
        DropOne(before, copied);
        if auditTail == auditHead { break; }
        buffer[copied] := auditLog[auditTail];
        auditTail := (auditTail + 1) % MAX_AUDIT_LOG_ENTRIES;
        copied := copied + 1;
      }
      assert buffer[..copied] == before[..copied];
    }
  }

  // ------------------------------------------------------------------
  // Runs
  // ------------------------------------------------------------------

  datatype Op =
    | Ask(request: Request, now: nat)
    | Drain(size: nat)
    | Add(policy: Policy)

  /** The rules in force, the visible entries, and the history: all decisions, all drained entries. */
  datatype State = State(
    rules: seq<Policy>, pending: seq<AuditEntry>, decisions: seq<AuditEntry>, drained: seq<AuditEntry>)

  function Apply(s: State, op: Op): State {
    match op
    case Ask(request, now) =>
      var e := AuditEntry(request, Granted(s.rules, request), now);
      s.(pending := Appended(s.pending, e), decisions := s.decisions + [e])
    case Drain(size) =>
      var n := Min(size, |s.pending|);
      s.(pending := s.pending[n..], drained := s.drained + s.pending[..n])
    case Add(policy) =>
      if |s.rules| < MAX_POLICIES then s.(rules := s.rules + [policy]) else s
  }

  function Run(s: State, ops: seq<Op>): State
    decreases |ops|
  {
    if ops == [] then s else Run(Apply(s, ops[0]), ops[1..])
  }

  const EMPTY: State := State([], [], [], [])

  /** How often the queue emptied itself: appends that found 127 entries waiting. */
  function Overruns(s: State, ops: seq<Op>): nat
    decreases |ops|
  {
    if ops == [] then 0
    else
      (if ops[0].Ask? && |s.pending| == MAX_AUDIT_LOG_ENTRIES - 1 then 1 else 0)
      + Overruns(Apply(s, ops[0]), ops[1..])
  }

  /** The visible entries are the latest decisions; each overrun has swallowed 128. */
  ghost predicate Accounted(s: State, overruns: nat) {
    && |s.pending| < MAX_AUDIT_LOG_ENTRIES
    && |s.decisions| == |s.drained| + |s.pending| + MAX_AUDIT_LOG_ENTRIES * overruns
    && s.pending == s.decisions[|s.decisions| - |s.pending|..]
    && (overruns == 0 ==> s.drained + s.pending == s.decisions)
  }

  lemma AskAccounted(s: State, op: Op, overruns: nat)
    requires op.Ask? && Accounted(s, overruns)
    ensures Accounted(Apply(s, op), overruns + (if |s.pending| == MAX_AUDIT_LOG_ENTRIES - 1 then 1 else 0))
  {
    hide Granted;
  }

  lemma DrainAccounted(s: State, op: Op, overruns: nat)
    requires op.Drain? && Accounted(s, overruns)
    ensures Accounted(Apply(s, op), overruns)
  {
    var n := Min(op.size, |s.pending|);
    assert s.drained + s.pending[..n] + s.pending[n..] == s.drained + s.pending;
  }

  lemma {:induction false} RunAccounted(s: State, ops: seq<Op>, overruns: nat)
    requires Accounted(s, overruns)
    ensures Accounted(Run(s, ops), overruns + Overruns(s, ops))
    decreases |ops|
  {
    hide Accounted, Apply;
    if ops != [] {
      var op := ops[0];
      match op {
        case Ask(_, _) => AskAccounted(s, op, overruns);
        case Drain(_) => DrainAccounted(s, op, overruns);
        case Add(_) => AddAccounted(s, op, overruns);
      }
      RunAccounted(Apply(s, op), ops[1..],
                   overruns + if op.Ask? && |s.pending| == MAX_AUDIT_LOG_ENTRIES - 1 then 1 else 0);
    }
  }

  lemma AddAccounted(s: State, op: Op, overruns: nat)
    requires op.Add? && Accounted(s, overruns)
    ensures Accounted(Apply(s, op), overruns)
  {
  }

  /**
    For every run: what was drained followed by what is visible is the whole decision
    history if and only if no decision was ever taken while 127 entries were waiting; the
    number visible is the true number undrained modulo 128; and what is visible is always
    the latest decisions, in order.  Decisions and drains are whole calls, one after the
    other; module AuditRace interleaves their accesses.
   */
  lemma {:induction false} AuditFaithfulExactly(ops: seq<Op>)
    ensures var s := Run(EMPTY, ops);
      && (s.drained + s.pending == s.decisions <==> Overruns(EMPTY, ops) == 0)
      && |s.drained| <= |s.decisions|
      && |s.pending| == (|s.decisions| - |s.drained|) % MAX_AUDIT_LOG_ENTRIES
      && s.pending == s.decisions[|s.decisions| - |s.pending|..]
  {
    hide Run, Overruns;
    RunAccounted(EMPTY, ops, 0);
    var s, w := Run(EMPTY, ops), Overruns(EMPTY, ops);
    assert |s.drained + s.pending| == |s.drained| + |s.pending|;
    ModUnique(|s.decisions| - |s.drained|, MAX_AUDIT_LOG_ENTRIES, w, |s.pending|);
  }
}

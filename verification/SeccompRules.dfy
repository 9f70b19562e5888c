/** Seccomp profiles as rule lists, their meaning under first-match evaluation, and the two compilers. */
module SeccompRules {
  import opened Prelude

  const KILL := "SCMP_ACT_KILL"
  const ERRNO := "SCMP_ACT_ERRNO"
  const ALLOW := "SCMP_ACT_ALLOW"
  const LOG := "SCMP_ACT_LOG"

  const BLOCKLIST: set<string> := {
    "ptrace", "process_vm_readv", "process_vm_writev", "userfaultfd",
    "mount", "umount", "umount2", "pivot_root",
    "kexec_load", "kexec_file_load",
    "reboot", "sethostname", "setdomainname",
    "init_module", "finit_module", "delete_module",
    "keyctl", "add_key", "request_key",
    "capset", "capget",
    "unshare", "setns",
    "bpf", "perf_event_open",
    "iopl", "ioperm",
    "syslog", "acct",
    "personality",
    "io_uring_setup", "io_uring_enter", "io_uring_register",
    "landlock_create_ruleset", "landlock_add_rule", "landlock_restrict_self",
    "restart_syscall",
    "nfsservctl", "_sysctl", "lookup_dcookie", "vmsplice"
  }

  const HARDEN_KILL: set<string> := {
    "init_module", "finit_module", "delete_module",
    "ptrace", "process_vm_readv", "process_vm_writev",
    "keyctl", "request_key", "add_key",
    "bpf", "perf_event_open", "reboot",
    "mount", "mount_setattr", "move_mount", "umount2",
    "pivot_root", "open_tree", "fspick", "fsopen", "fsconfig", "fsmount",
    "swapon", "swapoff",
    "kexec_load", "kexec_file_load"
  }

  const NETWORK: set<string> := {
    "socket", "connect", "sendto", "recvfrom", "recvmsg", "sendmsg", "shutdown",
    "getsockname", "getpeername", "bind", "listen", "accept", "accept4", "setsockopt", "getsockopt"
  }

  // ----- Rules and their meaning -----

  datatype Call = Call(name: string, args: seq<int>)

  /** What a rule asks of a call besides its name: nothing, or a condition of the base profile. */
  datatype Condition = Always | When(id: nat)

  datatype Rule = Rule(names: set<string>, action: string, errno: Option<int>, condition: Condition)

  datatype Profile = Profile(defaultAction: string, defaultErrno: Option<int>, rules: seq<Rule>)

  datatype Effect = Effect(action: string, errno: Option<int>)

  type Judge = (nat, Call) -> bool

  predicate Matches(judge: Judge, r: Rule, call: Call) {
    call.name in r.names && (r.condition.When? ==> judge(r.condition.id, call))
  }

  function FirstMatch(judge: Judge, rules: seq<Rule>, call: Call): Option<Effect> {
    if rules == [] then None
    else if Matches(judge, rules[0], call) then Some(Effect(rules[0].action, rules[0].errno))
    else FirstMatch(judge, rules[1..], call)
  }

  function FirstOf(o: Option<Effect>, other: Option<Effect>): Option<Effect> {
    if o.Some? then o else other
  }

  function Meaning(judge: Judge, p: Profile, call: Call): Effect {
    var matched := FirstMatch(judge, p.rules, call);
    if matched.Some? then matched.value else Effect(p.defaultAction, p.defaultErrno)
  }

  lemma {:induction false} FirstMatchAppend(judge: Judge, a: seq<Rule>, b: seq<Rule>, call: Call)
    ensures FirstMatch(judge, a + b, call) == FirstOf(FirstMatch(judge, a, call), FirstMatch(judge, b, call))
    decreases |a|
  {
    if a == [] {
      assert a + b == b;
    } else {
      assert (a + b)[1..] == a[1..] + b;
      FirstMatchAppend(judge, a[1..], b, call);
    }
  }

  // ----- The profile under construction -----

  datatype Block = Block(action: string, errno: Option<int>)

  function BlockFor(action: string, errno: int): Block {
    Block(action, if action == ERRNO then Some(errno) else None)
  }

  /** `order` lists the blocked names as the dictionary does, by first insertion. */
  datatype State = State(allowed: set<string>, blocked: map<string, Block>, order: seq<string>)

  const EMPTY := State({}, map[], [])

  ghost predicate Ordered(st: State) {
    && (forall s :: s in st.order <==> s in st.blocked)
    && (forall i, j | 0 <= i < j < |st.order| :: st.order[i] != st.order[j])
    && (forall s | s in st.blocked :: st.blocked[s].action == ERRNO ==> st.blocked[s].errno.Some?)
  }

  datatype Op = Add(names: set<string>) | DoBlock(name: string, errno: int, action: string)

  function Step(st: State, op: Op): State {
    match op
    case Add(names) => st.(allowed := st.allowed + (names - BLOCKLIST))
    case DoBlock(name, errno, action) =>
      State(st.allowed, st.blocked[name := BlockFor(action, errno)],
            if name in st.blocked then st.order else st.order + [name])
  }

  function Run(ops: seq<Op>): (st: State)
    ensures Ordered(st)
  {
    if ops == [] then EMPTY else Step(Run(ops[..|ops| - 1]), ops[|ops| - 1])
  }

  /** Every name that any call asked to allow. */
  function Added(ops: seq<Op>): set<string> {
    if ops == [] then {}
    else
      var last := ops[|ops| - 1];
      Added(ops[..|ops| - 1]) + if last.Add? then last.names else {}
  }

  /** The last block of a name, if any. */
  function LastBlock(ops: seq<Op>, s: string): Option<Block> {
    if ops == [] then None
    else
      var last := ops[|ops| - 1];
      if last.DoBlock? && last.name == s then Some(BlockFor(last.action, last.errno))
      else LastBlock(ops[..|ops| - 1], s)
  }

  /** A reachable state remembers exactly what was asked: the allowlist is what was added less the blocklist, and
      of several blocks of a name the last one counts. */
  lemma {:induction false} RunRemembers(ops: seq<Op>, s: string)
    ensures Run(ops).allowed == Added(ops) - BLOCKLIST
    ensures LastBlock(ops, s) == if s in Run(ops).blocked then Some(Run(ops).blocked[s]) else None
    decreases |ops|
  {
    if ops != [] {
      RunRemembers(ops[..|ops| - 1], s);
    }
  }

  // ----- Hardening an existing profile -----

  function ExplicitKills(blocked: map<string, Block>): set<string> {
    set s | s in blocked && blocked[s].action == KILL
  }

  function KillRule(blocked: map<string, Block>): Rule {
    Rule(HARDEN_KILL + ExplicitKills(blocked), KILL, None, Always)
  }

  function ErrnoRule(s: string, b: Block): Rule {
    Rule({s}, ERRNO, Some(if b.errno.Some? then b.errno.value else 1), Always)
  }

  /** The rules for the names blocked with an errno, in the order of the dictionary. */
  function ErrnoRules(order: seq<string>, blocked: map<string, Block>): seq<Rule>
    requires forall s | s in order :: s in blocked
  {
    if order == [] then []
    else
      var n := |order| - 1;
      var s := order[n];
      ErrnoRules(order[..n], blocked) + if blocked[s].action == ERRNO then [ErrnoRule(s, blocked[s])] else []
  }

  /** One kill rule, then the errno rules last first, then the base profile. */
  ghost function Hardened(base: Profile, st: State): Profile
    requires Ordered(st)
  {
    base.(rules := [KillRule(st.blocked)] + Reversed(ErrnoRules(st.order, st.blocked)) + base.rules)
  }

  lemma {:induction false} ReversedErrnoRules(judge: Judge, order: seq<string>, blocked: map<string, Block>, call: Call)
    requires forall s | s in order :: s in blocked
    requires forall s | s in blocked :: blocked[s].action == ERRNO ==> blocked[s].errno.Some?
    ensures FirstMatch(judge, Reversed(ErrnoRules(order, blocked)), call)
         == if call.name in order && blocked[call.name].action == ERRNO
            then Some(Effect(ERRNO, blocked[call.name].errno)) else None
    decreases |order|
  {
    if order != [] {
      var init, s := order[..|order| - 1], order[|order| - 1];
      var before, r := ErrnoRules(init, blocked), ErrnoRule(s, blocked[s]);
      assert order == init + [s];
      ReversedErrnoRules(judge, init, blocked, call);
      if blocked[s].action == ERRNO {
        ReversedSnoc(before, r);
        FirstMatchCons(judge, r, Reversed(before), call);
      } else {
        assert before + [] == before;
      }
    }
  }

  lemma ReversedSnoc(rules: seq<Rule>, r: Rule)
    ensures Reversed(rules + [r]) == [r] + Reversed(rules)
  {
  }

  lemma FirstMatchCons(judge: Judge, r: Rule, rest: seq<Rule>, call: Call)
    ensures FirstMatch(judge, [r] + rest, call)
         == if Matches(judge, r, call) then Some(Effect(r.action, r.errno)) else FirstMatch(judge, rest, call)
  {
    assert ([r] + rest)[1..] == rest;
  }

  /** The effect that hardening promises: kills first, then explicit errnos, then whatever the base says. */
  function Override(judge: Judge, base: Profile, ops: seq<Op>, call: Call): Effect {
    var block := LastBlock(ops, call.name);
    if call.name in HARDEN_KILL || (block.Some? && block.value.action == KILL) then Effect(KILL, None)
    else if block.Some? && block.value.action == ERRNO then Effect(ERRNO, block.value.errno)
    else Meaning(judge, base, call)
  }

  /** Hardening overrides any base profile pointwise, after any sequence of calls. */
  lemma HardeningOverrides(judge: Judge, base: Profile, ops: seq<Op>, call: Call)
    ensures Meaning(judge, Hardened(base, Run(ops)), call) == Override(judge, base, ops, call)
  {
    var st := Run(ops);
    var kill, errnos := [KillRule(st.blocked)], Reversed(ErrnoRules(st.order, st.blocked));
    RunRemembers(ops, call.name);
    ReversedErrnoRules(judge, st.order, st.blocked, call);
    FirstMatchAppend(judge, kill, errnos, call);
    FirstMatchAppend(judge, kill + errnos, base.rules, call);
    SingleRule(judge, kill[0], call);
  }

  lemma SingleRule(judge: Judge, r: Rule, call: Call)
    ensures FirstMatch(judge, [r], call) == if Matches(judge, r, call) then Some(Effect(r.action, r.errno)) else None
  {
    assert [r][1..] == [];
  }

  predicate Permits(e: Effect) {
    e.action == ALLOW || e.action == LOG
  }

  /** Exactly which calls, blocklisted or not, go through under a hardened profile: those that the base lets through,
      that are not on the kill list, and whose last block, if any, neither kills nor fails the call. */
  lemma HardeningPermitsIff(judge: Judge, base: Profile, ops: seq<Op>, call: Call)
    ensures Permits(Meaning(judge, Hardened(base, Run(ops)), call)) <==>
      && call.name !in HARDEN_KILL
      && (LastBlock(ops, call.name).Some? ==>
            LastBlock(ops, call.name).value.action != KILL && LastBlock(ops, call.name).value.action != ERRNO)
      && Permits(Meaning(judge, base, call))
  {
    HardeningOverrides(judge, base, ops, call);
    assert !Permits(Effect(KILL, None)) && ERRNO != ALLOW && ERRNO != LOG;
  }

  /** So not every blocklisted call is blocked in this mode: the kill list lacks `unshare`, for one. */
  lemma HardeningLeavesSomeBlocklisted(judge: Judge, base: Profile, args: seq<int>)
    requires Permits(Meaning(judge, base, Call("unshare", args)))
    ensures "unshare" in BLOCKLIST
    ensures Permits(Meaning(judge, Hardened(base, EMPTY), Call("unshare", args)))
  {
    assert Run([]) == EMPTY;
    assert "unshare" !in HARDEN_KILL;
    HardeningPermitsIff(judge, base, [], Call("unshare", args));
  }

  // ----- Default deny -----

  datatype Settings = Settings(defaultAction: string, audit: bool)

  /** The effect that a from-scratch profile promises. */
  function DenyEffect(cfg: Settings, st: State, s: string): Effect {
    DenyEffectOver(BLOCKLIST, cfg, st, s)
  }

  function DenyEffectOver(blocklist: set<string>, cfg: Settings, st: State, s: string): Effect {
    if s in blocklist then Effect(KILL, None)
    else if s in st.blocked then Effect(st.blocked[s].action, st.blocked[s].errno)
    else if s in st.allowed then Effect(if cfg.audit then LOG else ALLOW, None)
    else Effect(if cfg.audit then LOG else cfg.defaultAction, Some(1))
  }

  ghost predicate Denies(cfg: Settings, st: State, p: Profile) {
    forall judge: Judge, call :: Meaning(judge, p, call) == DenyEffect(cfg, st, call.name)
  }

  /** In any profile compiled from any reachable state, with audit off and a default that does not allow: a
      blocklisted call is killed whatever else was asked, and one not explicitly blocked is allowed exactly when
      it was added and is not blocklisted. */
  lemma AllowedIffAdded(cfg: Settings, ops: seq<Op>, p: Profile, judge: Judge, call: Call)
    requires Denies(cfg, Run(ops), p) && !cfg.audit && cfg.defaultAction != ALLOW
    ensures call.name in BLOCKLIST ==> Meaning(judge, p, call) == Effect(KILL, None)
    ensures LastBlock(ops, call.name) == None ==>
      (Meaning(judge, p, call).action == ALLOW <==> call.name in Added(ops) && call.name !in BLOCKLIST)
  {
    RunRemembers(ops, call.name);
    assert Meaning(judge, p, call) == DenyEffect(cfg, Run(ops), call.name);
    assert KILL != ALLOW;
  }
}

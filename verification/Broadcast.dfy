/** The agent broadcast of the shell: a main thread that raises a flag for every agent and
    waits until all are lowered, and agents that wait for their flag and lower it. One
    mutex guards the flags. Every statement between two lock operations is a step of its
    own, waits may end without a signal, and threads interleave in any order. */
module Broadcast {

  datatype Owner = Free | ByMain | ByAgent(i: nat)

  /** Where the main thread is. `Raising(k)` and `Scanning(k)` are about to visit agent `k`. */
  datatype MainPc = Idle | WantsLock | Raising(k: nat) | Scanning(k: nat) | Waiting | Leaving

  /** Where an agent is. `Running` covers its script, its jobs and its broadcast callback. */
  datatype AgentPc = Running | Locking | Testing | Asleep | Lowering | Unlocking | Finished

  /** `joined` is the number of broadcasts begun before the agent was started, `acks` how
      often it has lowered its flag. */
  datatype Agent = Agent(pc: AgentPc, pending: bool, joined: nat, acks: nat)

  /** `begun` counts the broadcasts that have taken the mutex. */
  datatype State = State(owner: Owner, main: MainPc, agents: seq<Agent>, begun: nat)

  datatype Step =
    | StartAgent
    | CallBroadcast
    | MainLock
    | Raise
    | RaisedAll
    | ScanPending
    | ScanNext
    | ScannedAll
    | MainWake
    | MainUnlock
    | AgentExit(i: nat)
    | AgentCall(i: nat)
    | AgentLock(i: nat)
    | AgentSleep(i: nat)
    | AgentSees(i: nat)
    | AgentWake(i: nat)
    | AgentLower(i: nat)
    | AgentUnlock(i: nat)

  predicate Init(s: State) {
    s == State(Free, Idle, [], 0)
  }

  function WithAgent(s: State, i: nat, a: Agent, owner: Owner): State
    requires i < |s.agents|
  {
    s.(agents := s.agents[i := a], owner := owner)
  }

  /** Agent `i` is at `pc`. */
  predicate At(s: State, i: nat, pc: AgentPc) { i < |s.agents| && s.agents[i].pc == pc }

  predicate Enabled(s: State, step: Step) {
    match step
    case StartAgent => s.main == Idle
    case CallBroadcast => s.main == Idle
    case MainLock => s.main == WantsLock && s.owner == Free
    case Raise => s.main.Raising? && s.main.k < |s.agents|
    case RaisedAll => s.main.Raising? && s.main.k == |s.agents|
    case ScanPending => s.main.Scanning? && s.main.k < |s.agents| && s.agents[s.main.k].pending
    case ScanNext => s.main.Scanning? && s.main.k < |s.agents| && !s.agents[s.main.k].pending
    case ScannedAll => s.main.Scanning? && s.main.k == |s.agents|
    case MainWake => s.main == Waiting && s.owner == Free
    case MainUnlock => s.main == Leaving
    case AgentExit(i) => At(s, i, Running)
    case AgentCall(i) => At(s, i, Running)
    case AgentLock(i) => At(s, i, Locking) && s.owner == Free
    case AgentSleep(i) => At(s, i, Testing) && !s.agents[i].pending
    case AgentSees(i) => At(s, i, Testing) && s.agents[i].pending
    case AgentWake(i) => At(s, i, Asleep) && s.owner == Free
    case AgentLower(i) => At(s, i, Lowering)
    case AgentUnlock(i) => At(s, i, Unlocking)
  }

  function Apply(s: State, step: Step): State
    requires Enabled(s, step)
  {
    match step
    case StartAgent => s.(agents := s.agents + [Agent(Running, false, s.begun, 0)])
    case CallBroadcast => s.(main := WantsLock)
    case MainLock => s.(main := Raising(0), owner := ByMain, begun := s.begun + 1)
    case Raise =>
      var k := s.main.k;
      s.(main := Raising(k + 1), agents := s.agents[k := s.agents[k].(pending := true)])
    case RaisedAll => s.(main := Scanning(0))
    case ScanPending => s.(main := Waiting, owner := Free)
    case ScanNext => s.(main := Scanning(s.main.k + 1))
    case ScannedAll => s.(main := Leaving)
    case MainWake => s.(main := Scanning(0), owner := ByMain)
    case MainUnlock => s.(main := Idle, owner := Free)
    case AgentExit(i) => WithAgent(s, i, s.agents[i].(pc := Finished), s.owner)
    case AgentCall(i) => WithAgent(s, i, s.agents[i].(pc := Locking), s.owner)
    case AgentLock(i) => WithAgent(s, i, s.agents[i].(pc := Testing), ByAgent(i))
    case AgentSleep(i) => WithAgent(s, i, s.agents[i].(pc := Asleep), Free)
    case AgentSees(i) => WithAgent(s, i, s.agents[i].(pc := Lowering), s.owner)
    case AgentWake(i) => WithAgent(s, i, s.agents[i].(pc := Testing), ByAgent(i))
    case AgentLower(i) =>
      var a := s.agents[i];
      WithAgent(s, i, a.(pc := Unlocking, pending := false, acks := a.acks + 1), s.owner)
    case AgentUnlock(i) => WithAgent(s, i, s.agents[i].(pc := Running), Free)
  }

  ghost predicate Next(s: State, s': State) {
    exists step :: Enabled(s, step) && s' == Apply(s, step)
  }

  /** An execution: any interleaving of any length. */
  ghost predicate IsRun(run: seq<State>) {
    && |run| > 0
    && Init(run[0])
    && forall i :: 0 <= i < |run| - 1 ==> Next(run[i], run[i + 1])
  }

  // Invariant

  predicate MainHolds(s: State) { s.main.Raising? || s.main.Scanning? || s.main.Leaving? }

  predicate AgentHolds(a: Agent) { a.pc.Testing? || a.pc.Lowering? || a.pc.Unlocking? }

  /** The mutex belongs to the one thread that is inside it. */
  predicate LockInv(s: State) {
    && (s.owner == ByMain <==> MainHolds(s))
    && (s.owner.ByAgent? ==> s.owner.i < |s.agents|)
    && forall i: nat :: i < |s.agents| ==> (AgentHolds(s.agents[i]) <==> s.owner == ByAgent(i))
  }

  /** How many broadcasts have raised the flag of agent `i`. */
  function Raised(s: State, i: nat): int
    requires i < |s.agents|
  {
    s.begun - s.agents[i].joined - (if s.main.Raising? && s.main.k <= i then 1 else 0)
  }

  /** The main thread knows that agent `i` has no flag up. */
  predicate KnownClear(s: State, i: nat) {
    match s.main
    case Idle => true
    case WantsLock => true
    case Raising(k) => k <= i
    case Scanning(k) => i < k
    case Waiting => false
    case Leaving => true
  }

  predicate AgentInv(s: State, i: nat)
    requires i < |s.agents|
  {
    var a := s.agents[i];
    && a.acks + (if a.pending then 1 else 0) == Raised(s, i)
    && (KnownClear(s, i) ==> !a.pending)
    && (a.pc.Lowering? ==> a.pending)
  }

  predicate Inv(s: State) {
    && LockInv(s)
    && (s.main.Raising? || s.main.Scanning? ==> s.main.k <= |s.agents|)
    && forall i: nat :: i < |s.agents| ==> AgentInv(s, i)
  }

  lemma LockStep(s: State, step: Step)
    requires Inv(s) && Enabled(s, step)
    ensures LockInv(Apply(s, step))
  {
    hide AgentInv;
    var s' := Apply(s, step);
    forall i: nat | i < |s'.agents|
      ensures AgentHolds(s'.agents[i]) <==> s'.owner == ByAgent(i)
    {
      assert i < |s.agents| ==> (AgentHolds(s.agents[i]) <==> s.owner == ByAgent(i));
    }
  }

  /** Each step keeps the count of every agent. */
  lemma AgentStep(s: State, step: Step, i: nat)
    requires Inv(s) && Enabled(s, step) && i < |Apply(s, step).agents|
    ensures AgentInv(Apply(s, step), i)
  {
    assert i < |s.agents| ==> AgentInv(s, i);
    match step
    case AgentSleep(j) => assert s.owner == ByAgent(j);
    case AgentLower(j) => assert AgentHolds(s.agents[j]) && s.owner == ByAgent(j);
    case _ =>
  }

  lemma InvStep(s: State, s': State)
    requires Inv(s) && Next(s, s')
    ensures Inv(s')
  {
    hide LockInv, AgentInv;
    var step :| Enabled(s, step) && s' == Apply(s, step);
    LockStep(s, step);
    forall i: nat | i < |s'.agents| ensures AgentInv(s', i) {
      AgentStep(s, step, i);
    }
  }

  /** Every state of every execution satisfies the invariant. */
  lemma {:induction false} InvOfRun(run: seq<State>, j: nat)
    requires IsRun(run) && j < |run|
    ensures Inv(run[j])
    decreases j
  {
    if j > 0 {
      InvOfRun(run, j - 1);
      assert Next(run[j - 1], run[j - 1 + 1]);
      InvStep(run[j - 1], run[j]);
    }
  }

  // What the invariant is for

  /** At most one thread is between its lock and its unlock. */
  lemma MutualExclusion(run: seq<State>, j: nat, a: nat, b: nat)
    requires IsRun(run) && j < |run| && a < |run[j].agents| && b < |run[j].agents|
    requires AgentHolds(run[j].agents[a])
    ensures !MainHolds(run[j])
    ensures AgentHolds(run[j].agents[b]) ==> a == b
  {
    InvOfRun(run, j);
  }

  /** In every reachable state an agent's acknowledgements plus its raised flag make up
      the broadcasts that have reached it. */
  lemma AcksPlusPending(run: seq<State>, j: nat, i: nat)
    requires IsRun(run) && j < |run| && i < |run[j].agents|
    ensures var a := run[j].agents[i];
            a.acks + (if a.pending then 1 else 0) == Raised(run[j], i)
  {
    InvOfRun(run, j);
    assert AgentInv(run[j], i);
  }

  /** No flag is raised while it is still up. */
  lemma FlagIsDownWhenRaised(run: seq<State>, j: nat)
    requires IsRun(run) && j < |run| && Enabled(run[j], Raise)
    ensures !run[j].agents[run[j].main.k].pending
  {
    InvOfRun(run, j);
    assert AgentInv(run[j], run[j].main.k);
  }

  /** A step keeps the agents it finds, when they joined, and never takes back an
      acknowledgement; an agent joins only when the main thread is idle. */
  predicate Persists(s: State, s': State, i: nat) {
    i < |s.agents| ==>
      && i < |s'.agents| && s'.agents[i].joined == s.agents[i].joined
      && s.agents[i].acks <= s'.agents[i].acks
  }

  lemma PersistsStep(s: State, step: Step, i: nat)
    requires Enabled(s, step)
    ensures Persists(s, Apply(s, step), i)
    ensures s.begun <= Apply(s, step).begun
    ensures |Apply(s, step).agents| == |s.agents| || s.main == Idle
  {
  }

  lemma AgentsPersistStep(s: State, s': State, i: nat)
    requires Next(s, s')
    ensures Persists(s, s', i) && s.begun <= s'.begun
    ensures |s'.agents| == |s.agents| || s.main == Idle
  {
    hide Apply, Enabled, Persists;
    var step :| Enabled(s, step) && s' == Apply(s, step);
    PersistsStep(s, step, i);
  }

  lemma {:induction false} AgentsPersist(run: seq<State>, from: nat, until: nat, i: nat)
    requires from <= until < |run| && IsRun(run) && i < |run[from].agents|
    ensures i < |run[until].agents| && run[until].agents[i].joined == run[from].agents[i].joined
    ensures run[from].agents[i].acks <= run[until].agents[i].acks && run[from].begun <= run[until].begun
    decreases until
  {
    hide Next;
    if from < until {
      AgentsPersist(run, from, until - 1, i);
      assert Next(run[until - 1], run[until - 1 + 1]);
      AgentsPersistStep(run[until - 1], run[until], i);
    }
  }

  /** The barrier. Take any execution, the state `from` where a broadcast has just taken
      the mutex, and the state `until` where that broadcast is about to return. Every agent
      that was queued has lowered its flag exactly once in between, and no flag is up. */
  lemma BarrierExactlyOnce(run: seq<State>, from: nat, until: nat, i: nat)
    requires from <= until < |run| && IsRun(run)
    requires run[from].main == Raising(0) && run[until].main == Leaving
    requires run[until].begun == run[from].begun
    requires i < |run[from].agents|
    ensures i < |run[until].agents| && !run[until].agents[i].pending
    ensures run[until].agents[i].acks == run[from].agents[i].acks + 1
  {
    hide LockInv;
    InvOfRun(run, from);
    InvOfRun(run, until);
    AgentsPersist(run, from, until, i);
    assert AgentInv(run[from], i) && AgentInv(run[until], i);
  }

  /** And while that broadcast is under way nobody joins it: the agents at its return are
      those at its start. */
  lemma {:induction false} NobodyJoinsDuringBroadcast(run: seq<State>, from: nat, until: nat)
    requires from <= until < |run| && IsRun(run)
    requires run[from].main != Idle
    requires forall j :: from <= j < until ==> run[j].main != Idle
    ensures |run[until].agents| == |run[from].agents|
    decreases until
  {
    hide Next;
    if from < until {
      NobodyJoinsDuringBroadcast(run, from, until - 1);
      assert Next(run[until - 1], run[until - 1 + 1]);
      AgentsPersistStep(run[until - 1], run[until], 0);
    }
  }
}

/** Broadcasts can return: with any number of agents there is an execution in which one does, and
    from any state in which the main thread waits there is one unless an agent has finished with
    its flag up. */
module BroadcastRuns {
  import opened Broadcast

  /** Some steps lead from `s` to `t`. */
  ghost predicate Leads(s: State, t: State) {
    exists path :: IsPath(path, s, t)
  }

  ghost predicate IsPath(path: seq<State>, s: State, t: State) {
    && |path| > 0 && path[0] == s && path[|path| - 1] == t
    && forall j :: 0 <= j < |path| - 1 ==> Next(path[j], path[j + 1])
  }

  const START: State := State(Free, Idle, [], 0)

  lemma {:induction false} Stay(s: State)
    ensures Leads(s, s)
  {
    assert IsPath([s], s, s);
  }

  lemma {:induction false} Then(s: State, t: State, step: Step)
    requires Leads(s, t) && Enabled(t, step)
    ensures Leads(s, Apply(t, step))
  {
    hide Enabled, Apply;
    var path: seq<State> :| IsPath(path, s, t);
    var u := Apply(t, step);
    assert Next(t, u);
    hide Next;
    var more := path + [u];
    forall j | 0 <= j < |more| - 1 ensures Next(more[j], more[j + 1]) {
      if j < |path| - 1 {
        assert Next(path[j], path[j + 1]);
      }
    }
    assert IsPath(more, s, u);
  }

  lemma {:induction false} Step(s: State, step: Broadcast.Step)
    requires Enabled(s, step)
    ensures Leads(s, Apply(s, step))
  {
    hide Enabled, Apply, Leads;
    Stay(s);
    Then(s, s, step);
  }

  lemma {:induction false} Join(s: State, t: State, u: State)
    requires Leads(s, t) && Leads(t, u)
    ensures Leads(s, u)
  {
    hide Next;
    var a: seq<State> :| IsPath(a, s, t);
    var b: seq<State> :| IsPath(b, t, u);
    var path := a + b[1..];
    forall j | 0 <= j < |path| - 1 ensures Next(path[j], path[j + 1]) {
      if j < |a| - 1 {
        assert Next(a[j], a[j + 1]);
      } else {
        var k := j - |a| + 1;
        assert path[j] == b[k] && path[j + 1] == b[k + 1] && Next(b[k], b[k + 1]);
      }
    }
    assert IsPath(path, s, u);
  }

  lemma {:induction false} InvAlong(s: State, t: State)
    requires Inv(s) && Leads(s, t)
    ensures Inv(t)
  {
    hide Inv, Next;
    var path: seq<State> :| IsPath(path, s, t);
    for j := 0 to |path| - 1
      invariant Inv(path[j])
    {
      assert Next(path[j], path[j + 1]);
      InvStep(path[j], path[j + 1]);
    }
  }

  /** `n` agents of which the first `k` are `a` and the others `b`. */
  function Mixed(n: nat, k: nat, a: Agent, b: Agent): seq<Agent> {
    seq(n, i => if i < k then a else b)
  }

  const WAITING: Agent := Agent(Locking, false, 0, 0)
  const FLAGGED: Agent := Agent(Locking, true, 0, 0)

  lemma {:induction false} AgentsStart(n: nat)
    ensures Leads(START, State(Free, Idle, Mixed(n, n, WAITING, WAITING), 0))
  {
    hide Leads;
    if n == 0 {
      Stay(START);
      assert Mixed(0, 0, WAITING, WAITING) == [];
    } else {
      var agents := Mixed(n - 1, n - 1, WAITING, WAITING);
      var s := State(Free, Idle, agents, 0);
      AgentsStart(n - 1);
      Then(START, s, StartAgent);
      var t := Apply(s, StartAgent);
      Then(START, t, AgentCall(n - 1));
      assert Apply(t, AgentCall(n - 1)).agents == Mixed(n, n, WAITING, WAITING);
    }
  }

  lemma {:induction false} FlagsGoUp(n: nat, k: nat)
    requires k <= n
    ensures Leads(START, State(ByMain, Raising(k), Mixed(n, k, FLAGGED, WAITING), 1))
    decreases k
  {
    if k == 0 {
      var s := State(Free, Idle, Mixed(n, n, WAITING, WAITING), 0);
      AgentsStart(n);
      Then(START, s, CallBroadcast);
      Then(START, Apply(s, CallBroadcast), MainLock);
      assert Mixed(n, 0, FLAGGED, WAITING) == Mixed(n, n, WAITING, WAITING);
    } else {
      var s := State(ByMain, Raising(k - 1), Mixed(n, k - 1, FLAGGED, WAITING), 1);
      FlagsGoUp(n, k - 1);
      Then(START, s, Raise);
      assert Apply(s, Raise).agents == Mixed(n, k, FLAGGED, WAITING);
    }
  }

  // Deadlock

  /** No agent has finished with its flag up. */
  predicate NoneIsLost(s: State) {
    forall i :: 0 <= i < |s.agents| ==> !(s.agents[i].pending && s.agents[i].pc == Finished)
  }

  /** The broadcast under way can return. */
  ghost predicate CanReturn(s: State) {
    exists t :: Leads(s, t) && t.main == Leaving && t.begun == s.begun && |t.agents| == |s.agents|
  }

  /** How many flags are up. */
  function FlagsUp(agents: seq<Agent>): nat {
    if agents == [] then 0 else (if agents[0].pending then 1 else 0) + FlagsUp(agents[1..])
  }

  lemma {:induction false} OneFlagLess(agents: seq<Agent>, i: nat, a: Agent)
    requires i < |agents| && agents[i].pending && !a.pending
    ensures FlagsUp(agents[i := a]) == FlagsUp(agents) - 1
  {
    if i > 0 {
      assert agents[i := a][1..] == agents[1..][i - 1 := a];
      OneFlagLess(agents[1..], i - 1, a);
    } else {
      assert agents[0 := a][1..] == agents[1..];
    }
  }

  lemma {:induction false} NoFlagsUp(agents: seq<Agent>)
    ensures FlagsUp(agents) == 0 <==> forall i :: 0 <= i < |agents| ==> !agents[i].pending
  {
    if agents != [] {
      NoFlagsUp(agents[1..]);
      assert forall i :: 1 <= i < |agents| ==> agents[i] == agents[1..][i - 1];
    }
  }

  /** An agent that holds the mutex and sees its flag lowers it and lets the mutex go. */
  lemma {:induction false} Acknowledge(s: State, i: nat)
    requires s.main == Waiting && At(s, i, Testing) && s.agents[i].pending
    ensures var a := s.agents[i];
            Leads(s, WithAgent(s, i, Agent(Running, false, a.joined, a.acks + 1), Free))
  {
    hide Leads;
    var t := Apply(s, AgentSees(i));
    var u := Apply(t, AgentLower(i));
    Step(s, AgentSees(i));
    Then(s, t, AgentLower(i));
    Then(s, u, AgentUnlock(i));
    var a := s.agents[i];
    assert Apply(u, AgentUnlock(i)).agents == s.agents[i := Agent(Running, false, a.joined, a.acks + 1)];
  }

  /** An agent that waits for the mutex or for a signal, or runs, comes to test its flag. */
  lemma {:induction false} ComeToTest(s: State, i: nat) returns (t: State)
    requires s.owner == Free && i < |s.agents|
    requires s.agents[i].pc == Running || s.agents[i].pc == Locking || s.agents[i].pc == Asleep
    ensures t == WithAgent(s, i, s.agents[i].(pc := Testing), ByAgent(i)) && Leads(s, t)
  {
    hide Leads;
    t := WithAgent(s, i, s.agents[i].(pc := Testing), ByAgent(i));
    if s.agents[i].pc == Asleep {
      Step(s, AgentWake(i));
    } else if s.agents[i].pc == Locking {
      Step(s, AgentLock(i));
    } else {
      Step(s, AgentCall(i));
      Then(s, Apply(s, AgentCall(i)), AgentLock(i));
      assert Apply(Apply(s, AgentCall(i)), AgentLock(i)).agents == t.agents;
    }
  }

  /** The agent that holds the mutex lets it go. */
  lemma {:induction false} LetGo(s: State, i: nat) returns (t: State)
    requires Inv(s) && s.main == Waiting && s.owner == ByAgent(i) && NoneIsLost(s)
    ensures Leads(s, t) && t.main == Waiting && t.owner == Free && NoneIsLost(t) && t.begun == s.begun
    ensures FlagsUp(t.agents) <= FlagsUp(s.agents) && |t.agents| == |s.agents|
  {
    hide Leads, FlagsUp;
    assert i < |s.agents| && AgentHolds(s.agents[i]) && AgentInv(s, i);
    var a := s.agents[i];
    if a.pc == Testing && a.pending {
      Acknowledge(s, i);
      t := WithAgent(s, i, Agent(Running, false, a.joined, a.acks + 1), Free);
      OneFlagLess(s.agents, i, t.agents[i]);
    } else if a.pc == Testing {
      Step(s, AgentSleep(i));
      t := Apply(s, AgentSleep(i));
      SameFlags(s.agents, i, t.agents[i]);
    } else if a.pc == Lowering {
      var u := Apply(s, AgentLower(i));
      Step(s, AgentLower(i));
      Then(s, u, AgentUnlock(i));
      t := Apply(u, AgentUnlock(i));
      assert t.agents == s.agents[i := t.agents[i]];
      OneFlagLess(s.agents, i, t.agents[i]);
    } else {
      Step(s, AgentUnlock(i));
      t := Apply(s, AgentUnlock(i));
      SameFlags(s.agents, i, t.agents[i]);
    }
  }

  lemma {:induction false} SameFlags(agents: seq<Agent>, i: nat, a: Agent)
    requires i < |agents| && agents[i].pending == a.pending
    ensures FlagsUp(agents[i := a]) == FlagsUp(agents)
  {
    if i > 0 {
      assert agents[i := a][1..] == agents[1..][i - 1 := a];
      SameFlags(agents[1..], i - 1, a);
    } else {
      assert agents[0 := a][1..] == agents[1..];
    }
  }

  /** With all flags down the main thread wakes, scans and returns. */
  lemma {:induction false} ScanThrough(s: State, t: State, k: nat)
    requires Leads(s, t) && t.main == Scanning(k) && k <= |t.agents| == |s.agents| && t.begun == s.begun
    requires forall i :: 0 <= i < |t.agents| ==> !t.agents[i].pending
    ensures CanReturn(s)
    decreases |t.agents| - k
  {
    hide Leads;
    if k == |t.agents| {
      Then(s, t, ScannedAll);
      assert Apply(t, ScannedAll).main == Leaving;
    } else {
      Then(s, t, ScanNext);
      ScanThrough(s, Apply(t, ScanNext), k + 1);
    }
  }

  /** While the main thread waits, its broadcast can return if no flag is up for good. */
  lemma {:induction false} WaitingReturns(s: State)
    requires Inv(s) && s.main == Waiting && NoneIsLost(s)
    ensures CanReturn(s)
    decreases FlagsUp(s.agents), if s.owner == Free then 0 else 1
  {
    hide Leads, FlagsUp;
    if s.owner != Free {
      var t := LetGo(s, s.owner.i);
      InvAlong(s, t);
      WaitingReturns(t);
      ReturnsAlong(s, t);
    } else if forall i :: 0 <= i < |s.agents| ==> !s.agents[i].pending {
      Step(s, MainWake);
      ScanThrough(s, Apply(s, MainWake), 0);
    } else {
      var i :| 0 <= i < |s.agents| && s.agents[i].pending;
      assert !AgentHolds(s.agents[i]);
      var t := ComeToTest(s, i);
      Acknowledge(t, i);
      var a := s.agents[i];
      var u := WithAgent(t, i, Agent(Running, false, a.joined, a.acks + 1), Free);
      Join(s, t, u);
      assert u.agents == s.agents[i := u.agents[i]];
      OneFlagLess(s.agents, i, u.agents[i]);
      InvAlong(s, u);
      WaitingReturns(u);
      ReturnsAlong(s, u);
    }
  }

  lemma {:induction false} ReturnsAlong(s: State, t: State)
    requires Leads(s, t) && t.begun == s.begun && |t.agents| == |s.agents| && CanReturn(t)
    ensures CanReturn(s)
  {
    hide Leads;
    var u :| Leads(t, u) && u.main == Leaving && u.begun == t.begun && |u.agents| == |t.agents|;
    Join(s, t, u);
  }

  /** An agent that has finished with its flag up keeps it up for ever. */
  lemma {:induction false} LostForEver(s: State, t: State, i: nat)
    requires Leads(s, t) && i < |s.agents| && s.agents[i].pc == Finished && s.agents[i].pending
    ensures i < |t.agents| && t.agents[i].pc == Finished && t.agents[i].pending
  {
    hide Next;
    var path: seq<State> :| IsPath(path, s, t);
    for j := 0 to |path| - 1
      invariant i < |path[j].agents| && path[j].agents[i].pc == Finished && path[j].agents[i].pending
    {
      assert Next(path[j], path[j + 1]);
      FinishedStays(path[j], path[j + 1], i);
    }
  }

  lemma FinishedStays(s: State, t: State, i: nat)
    requires Next(s, t) && i < |s.agents| && s.agents[i].pc == Finished && s.agents[i].pending
    ensures i < |t.agents| && t.agents[i].pc == Finished && t.agents[i].pending
  {
    hide Enabled, Apply;
    var step :| Enabled(s, step) && t == Apply(s, step);
    FinishedStep(s, step, i);
  }

  lemma FinishedStep(s: State, step: Broadcast.Step, i: nat)
    requires Enabled(s, step) && i < |s.agents| && s.agents[i].pc == Finished && s.agents[i].pending
    ensures var t := Apply(s, step);
            i < |t.agents| && t.agents[i].pc == Finished && t.agents[i].pending
  {
  }

  lemma NoFlagWhenLeaving(s: State, i: nat)
    requires Inv(s) && i < |s.agents|
    ensures s.main == Leaving ==> !s.agents[i].pending
  {
    assert AgentInv(s, i);
  }

  /** A broadcast that waits can return exactly when no agent has finished with its flag up. */
  lemma {:induction false} CanReturnIff(s: State)
    requires Leads(START, s) && s.main == Waiting
    ensures CanReturn(s) <==> NoneIsLost(s)
  {
    hide Leads, Inv;
    StartIsGood();
    InvAlong(START, s);
    if NoneIsLost(s) {
      WaitingReturns(s);
    }
    if CanReturn(s) {
      var t :| Leads(s, t) && t.main == Leaving && t.begun == s.begun && |t.agents| == |s.agents|;
      InvAlong(s, t);
      forall i | 0 <= i < |s.agents| ensures !(s.agents[i].pending && s.agents[i].pc == Finished) {
        if s.agents[i].pending && s.agents[i].pc == Finished {
          LostForEver(s, t, i);
          NoFlagWhenLeaving(t, i);
        }
      }
    }
  }

  /** With any number of agents there is an execution in which a broadcast returns. */
  lemma {:induction false} BroadcastReturns(n: nat) returns (t: State)
    ensures Leads(START, t) && t.main == Leaving && |t.agents| == n
  {
    hide Leads;
    var s := State(ByMain, Raising(n), Mixed(n, n, FLAGGED, WAITING), 1);
    FlagsGoUp(n, n);
    Then(START, s, RaisedAll);
    var u := Apply(s, RaisedAll);
    if n == 0 {
      Then(START, u, ScannedAll);
      t := Apply(u, ScannedAll);
    } else {
      Then(START, u, ScanPending);
      var w := Apply(u, ScanPending);
      CanReturnIff(w);
      t :| Leads(w, t) && t.main == Leaving && t.begun == w.begun && |t.agents| == |w.agents|;
      Join(START, w, t);
    }
  }

  lemma StartIsGood()
    ensures Inv(START)
  {
  }

  /** One agent that ends without waiting for a broadcast, and a broadcast: it never returns. */
  lemma {:induction false} FinishedAgentBlocks() returns (s: State)
    ensures Leads(START, s) && s.main == Waiting && !CanReturn(s)
  {
    hide Leads, CanReturn;
    Step(START, StartAgent);
    var a := Apply(START, StartAgent);
    Then(START, a, AgentExit(0));
    var b := Apply(a, AgentExit(0));
    Then(START, b, CallBroadcast);
    var c := Apply(b, CallBroadcast);
    Then(START, c, MainLock);
    var d := Apply(c, MainLock);
    Then(START, d, Raise);
    var e := Apply(d, Raise);
    Then(START, e, RaisedAll);
    var f := Apply(e, RaisedAll);
    Then(START, f, ScanPending);
    s := Apply(f, ScanPending);
    assert s.agents[0].pending && s.agents[0].pc == Finished;
    CanReturnIff(s);
  }
}

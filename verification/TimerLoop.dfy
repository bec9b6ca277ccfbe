/** The console's timer calls and the loop that drains the queue, against the state
    machine of `Timers`. */
module TimerLoop {
  import opened Timers

  // How much a callback can still do

  /** One for the callback and the sizes of the timers it sets. */
  function Size(cb: Callback): (n: nat)
    ensures n > 0
    decreases cb, 1
  {
    1 + ActionsSize(cb.actions)
  }

  function ActionsSize(actions: seq<Action>): nat
    decreases actions, 0
  {
    if actions == [] then 0 else ActionSize(actions[0]) + ActionsSize(actions[1..])
  }

  function ActionSize(action: Action): nat
    decreases action, 2
  {
    match action
    case SetTimer(args, _) =>
      if |args| > 0 && args[0].Function? then Size(args[0].cb) else 0
    case ClearTimeout(_) => 0
  }

  predicate AllIn(queue: seq<nat>, tree: map<nat, Event>) {
    forall id :: id in queue ==> id in tree
  }

  function QueueSize(queue: seq<nat>, tree: map<nat, Event>): nat
    requires AllIn(queue, tree)
  {
    if queue == [] then 0 else Size(tree[queue[0]].cb) + QueueSize(queue[1..], tree)
  }

  lemma {:induction false} QueueSizeSame(queue: seq<nat>, a: map<nat, Event>, b: map<nat, Event>)
    requires AllIn(queue, a) && AllIn(queue, b)
    requires forall id :: id in queue ==> a[id] == b[id]
    ensures QueueSize(queue, a) == QueueSize(queue, b)
  {
    if queue != [] {
      assert queue[0] in queue;
      QueueSizeSame(queue[1..], a, b);
    }
  }

  lemma {:induction false} QueueSizeAppend(queue: seq<nat>, id: nat, tree: map<nat, Event>)
    requires AllIn(queue, tree) && id in tree
    ensures QueueSize(queue + [id], tree) == QueueSize(queue, tree) + Size(tree[id].cb)
  {
    if queue == [] {
      assert queue + [id] == [id];
    } else {
      assert (queue + [id])[1..] == queue[1..] + [id];
      QueueSizeAppend(queue[1..], id, tree);
    }
  }

  lemma {:induction false} QueueSizeWithout(queue: seq<nat>, id: nat, tree: map<nat, Event>)
    requires AllIn(queue, tree)
    ensures QueueSize(Without(queue, id), tree) <= QueueSize(queue, tree)
  {
    if queue != [] && queue[0] != id {
      assert Without(queue, id)[1..] == Without(queue[1..], id);
      QueueSizeWithout(queue[1..], id, tree);
    }
  }

  /** What bounds the rest of a run: the callbacks queued and all that they can set. */
  ghost function Work(s: State): nat
    requires Inv(s)
  {
    QueueSize(s.queue, s.tree)
  }

  lemma ActWork(s: State, action: Action)
    requires Inv(s) && Act(s, action).issued <= WORD
    ensures Inv(Act(s, action))
    ensures Work(Act(s, action)) <= Work(s) + ActionSize(action)
  {
    hide Size;
    match action
    case SetTimer(args, immediate) =>
      if CheckSet(args, immediate).Done? {
        PostWork(s, EventOf(args, immediate));
      }
    case ClearTimeout(args) =>
      if |args| > 0 && args[0].Number? && args[0].n % WORD in s.tree {
        DropWork(s, args[0].n % WORD);
      }
  }

  lemma PostWork(s: State, ev: Event)
    requires Inv(s) && s.issued < WORD
    ensures Inv(Post(s, ev)) && Work(Post(s, ev)) == Work(s) + Size(ev.cb)
  {
    hide Size;
    var id, s' := s.nextId, Post(s, ev);
    PostKeepsInv(s, ev);
    QueueSizeAppend(s.queue, id, s'.tree);
    QueueSizeSame(s.queue, s.tree, s'.tree);
  }

  lemma DropWork(s: State, id: nat)
    requires Inv(s) && id in s.tree
    ensures Inv(Drop(s, id)) && Work(Drop(s, id)) <= Work(s)
  {
    hide Size;
    DropKeepsInv(s, id);
    QueueSizeWithout(s.queue, id, s.tree);
    QueueSizeSame(Drop(s, id).queue, s.tree, Drop(s, id).tree);
  }

  lemma TakeWork(s: State)
    requires Inv(s) && s.queue != []
    ensures s.queue[0] in s.tree && Inv(Take(s))
    ensures Work(Take(s)) + Size(s.tree[s.queue[0]].cb) == Work(s)
  {
    hide Size;
    TakeKeepsInv(s);
    QueueSizeSame(s.queue[1..], s.tree, Take(s).tree);
  }

  /** The timer calls of one callback, in order. */
  function ActAll(s: State, actions: seq<Action>): State
    decreases |actions|
  {
    if actions == [] then s else ActAll(Act(s, actions[0]), actions[1..])
  }

  lemma {:induction false} ActAllIssued(s: State, actions: seq<Action>)
    ensures s.issued <= ActAll(s, actions).issued
    ensures ActAll(s, actions).executed == s.executed
    decreases |actions|
  {
    if actions != [] {
      ActAllIssued(Act(s, actions[0]), actions[1..]);
    }
  }

  lemma {:induction false} ActAllWork(s: State, actions: seq<Action>)
    requires Inv(s) && ActAll(s, actions).issued <= WORD
    ensures Inv(ActAll(s, actions))
    ensures Work(ActAll(s, actions)) <= Work(s) + ActionsSize(actions)
    decreases |actions|
  {
    hide Inv, Act, ActionSize, Work;
    if actions != [] {
      ActAllIssued(Act(s, actions[0]), actions[1..]);
      ActWork(s, actions[0]);
      ActAllWork(Act(s, actions[0]), actions[1..]);
    }
  }

  /** One turn of the loop: take the first timer and run its callback. */
  ghost function Turn(s: State): State
    requires Inv(s) && s.queue != []
  {
    ActAll(Take(s), FirstCallback(s).actions)
  }

  lemma TurnWorks(s: State)
    requires Inv(s) && s.queue != [] && Turn(s).issued <= WORD
    ensures Inv(Turn(s)) && Work(Turn(s)) < Work(s)
    ensures Turn(s).executed == s.executed + [s.queue[0]]
  {
    hide Inv, Size, Work, ActAll;
    var cb := FirstCallback(s);
    TakeWork(s);
    CallbackSize(cb);
    ActAllIssued(Take(s), cb.actions);
    ActAllWork(Take(s), cb.actions);
  }

  /** The calls of a callback are steps like any others. */
  lemma {:induction false} ActAllIsRun(s: State, actions: seq<Action>)
    ensures ActAll(s, actions) == RunAll(s, Calls(actions))
    decreases |actions|
  {
    hide Act;
    if actions != [] {
      assert Calls(actions)[1..] == Calls(actions[1..]);
      ActAllIsRun(Act(s, actions[0]), actions[1..]);
    }
  }

  function Calls(actions: seq<Action>): seq<Step> {
    seq(|actions|, i requires 0 <= i < |actions| => Call(actions[i]))
  }

  /** A turn runs the function that was passed when its timer was set, however much happened in
      between: it makes that function's calls in order, and it fails when that function does. */
  lemma {:induction false} TurnRunsWhatWasSet(s: State, args: seq<Arg>, immediate: bool, steps: seq<Step>,
                                              interactive: bool)
    requires Inv(s) && MaySet(args, immediate)
    requires var now := RunAll(Act(s, SetTimer(args, immediate)), steps);
             now.issued <= WORD && now.queue != [] && now.queue[0] == s.nextId
    ensures var now := RunAll(Act(s, SetTimer(args, immediate)), steps);
            && Inv(now)
            && Turn(now) == RunAll(Take(now), Calls(args[0].cb.actions))
            && (Fails(now, interactive) <==> args[0].cb.fails && !interactive)
  {
    hide Inv, Act, RunAll, ActAll, Take;
    var start := Act(s, SetTimer(args, immediate));
    var now := RunAll(start, steps);
    IssuedGrows(start, steps);
    SetStores(s, args, immediate);
    ActKeepsInv(s, SetTimer(args, immediate));
    InvOfRun(start, steps);
    NextIdIsIssued(s, start.issued);
    EventStays(start, steps, s.nextId);
    FirstIsInTree(now);
    ActAllIsRun(Take(now), args[0].cb.actions);
  }

  lemma NextIdIsIssued(s: State, issued: nat)
    requires Inv(s) && issued == s.issued + 1 <= WORD
    ensures s.nextId < issued
  {
  }

  lemma FirstIsInTree(s: State)
    requires Inv(s) && s.queue != []
    ensures s.queue[0] in s.tree
  {
  }

  /** Whether the loop ends after this turn with a failure. */
  ghost predicate Fails(s: State, interactive: bool)
    requires Inv(s) && s.queue != []
  {
    FirstCallback(s).fails && !interactive
  }

  /** The whole run gives out at most 2^32 ids, counted from the start of the console. */
  ghost predicate IdsSuffice(s: State, interactive: bool)
    requires Inv(s)
    decreases Work(s)
  {
    s.queue == [] ||
    (Turn(s).issued <= WORD && (TurnWorks(s); Fails(s, interactive) || IdsSuffice(Turn(s), interactive)))
  }

  /** Runs timers until none is pending or one fails outside interactive mode, and says
      whether one did. */
  ghost function Drain(s: State, interactive: bool): (r: (State, bool))
    requires Inv(s) && IdsSuffice(s, interactive)
    ensures Inv(r.0) && s.executed <= r.0.executed
    ensures r.1 ==> !interactive
    ensures !r.1 ==> r.0.queue == [] && r.0.tree == map[]
    decreases Work(s)
  {
    if s.queue == [] then EmptyQueueEmptyTree(s); (s, false)
    else
      TurnWorks(s);
      if Fails(s, interactive) then (Turn(s), true) else Drain(Turn(s), interactive)
  }

  /** `states` are those between the turns of the loop. Every turn but the last one succeeded;
      the loop ends because the last one failed or because nothing is pending. */
  ghost predicate AreTurns(states: seq<State>, interactive: bool, failed: bool) {
    var n := |states| - 1;
    && n >= 0
    && (forall j :: 0 <= j < n ==>
          && Inv(states[j]) && states[j].queue != [] && states[j + 1] == Turn(states[j])
          && (Fails(states[j], interactive) <==> failed && j == n - 1))
    && (if failed then n > 0 else states[n].queue == [])
  }

  /** The loop stops at the first callback that fails outside interactive mode. */
  lemma {:induction false} DrainIsTurns(s: State, interactive: bool) returns (states: seq<State>)
    requires Inv(s) && IdsSuffice(s, interactive)
    ensures AreTurns(states, interactive, Drain(s, interactive).1)
    ensures states[0] == s && states[|states| - 1] == Drain(s, interactive).0
    decreases Work(s)
  {
    hide Inv, Work, Turn;
    if s.queue == [] {
      states := [s];
    } else {
      TurnWorks(s);
      if Fails(s, interactive) {
        states := [s, Turn(s)];
      } else {
        var more := DrainIsTurns(Turn(s), interactive);
        states := [s] + more;
        assert forall j :: 1 <= j < |states| ==> states[j] == more[j - 1];
      }
    }
  }

  ghost function FirstCallback(s: State): Callback
    requires Inv(s) && s.queue != []
  {
    s.tree[s.queue[0]].cb
  }

  /** The drained machine: nothing is pending, so every timer ever set has run or was
      cleared. */
  lemma DrainedMeansSettled(s: State, id: nat)
    requires Inv(s) && s.queue == [] && id < s.issued
    ensures s.tree == map[]
    ensures Executed(s, id) <==> !Cleared(s, id)
  {
    assert Pending(s, id) || Executed(s, id) || Cleared(s, id);
    assert forall x :: x !in s.tree;
  }

  datatype Outcome = Failed | Again | Finished

  class Console {
    var eventId: nat
    var events: map<nat, Event>
    var posted: seq<nat>
    const interactive: bool
    ghost var executed: seq<nat>
    ghost var cleared: set<nat>
    ghost var issued: nat

    constructor (interactive: bool)
      ensures Abs() == START && this.interactive == interactive
    {
      eventId, events, posted := 0, map[], [];
      executed, cleared, issued := [], {}, 0;
      this.interactive := interactive;
    }

    ghost function Abs(): State
      reads this
    {
      State(eventId, events, posted, executed, cleared, issued)
    }

    method Set(args: seq<Arg>, immediate: bool) returns (r: Result)
      modifies this
      ensures Abs() == Act(old(Abs()), SetTimer(args, immediate))
      ensures r == if CheckSet(args, immediate).Err? then CheckSet(args, immediate)
                   else Ok(old(eventId))
      ensures r.Ok? <==> MaySet(args, immediate)
      ensures r.Ok? ==> r.id in events && IsEventFor(events[r.id], args, immediate)
      ensures r.Ok? ==> posted == old(posted) + [r.id]
    {
      var check := CheckSet(args, immediate);
      if check.Err? {
        return check;
      }
      var ev := EventOf(args, immediate);
      var id := eventId;
      eventId := (eventId + 1) % WORD;
      issued := issued + 1;
      events := events[id := ev];
      posted := posted + [id];
      return Ok(id);
    }

    method Clear(args: seq<Arg>) returns (r: Result)
      modifies this
      ensures Abs() == Act(old(Abs()), ClearTimeout(args))
      ensures r == if |args| == 0 || !args[0].Number? then Done
                   else if args[0].n % WORD in old(events) then Done
                   else Err(NoSuchTimer)
    {
      if |args| == 0 || !args[0].Number? {
        return Done;
      }
      var id := args[0].n % WORD;
      if id !in events {
        return Err(NoSuchTimer);
      }
      posted := Without(posted, id);
      events := events - {id};
      cleared := cleared + {id};
      return Done;
    }

    /** Runs a callback: it may call back into the console any number of times. */
    method Invoke(cb: Callback) returns (failed: bool)
      modifies this
      ensures Abs() == ActAll(old(Abs()), cb.actions)
      ensures failed == cb.fails
    {
      hide Act;
      var i := 0;
      assert cb.actions[0..] == cb.actions;
      while i < |cb.actions|
        invariant i <= |cb.actions|
        invariant ActAll(old(Abs()), cb.actions) == ActAll(Abs(), cb.actions[i..])
      {
        assert cb.actions[i..][1..] == cb.actions[i + 1..];
        match cb.actions[i] {
          case SetTimer(args, immediate) => var _ := Set(args, immediate);
          case ClearTimeout(args) => var _ := Clear(args);
        }
        i := i + 1;
      }
      failed := cb.fails;
    }

    /** Drains the queue, as the reference does. When the loop ends without an error both
        structures are empty, so the check for left-over tree entries never asks for
        another round. */
    method ProcessEvents(vmPending: bool) returns (r: Outcome)
      requires Inv(Abs()) && IdsSuffice(Abs(), interactive)
      modifies this
      ensures (Abs(), r == Failed) == Drain(old(Abs()), interactive)
      ensures r != Failed ==> r == if vmPending then Again else Finished
    {
      hide Inv, Work;
      while posted != []
        invariant Inv(Abs()) && IdsSuffice(Abs(), interactive)
        invariant Drain(old(Abs()), interactive) == Drain(Abs(), interactive)
        decreases Work(Abs())
      {
        TakeWork(Abs());
        TurnWorks(Abs());
        ghost var next := Turn(Abs());
        var id := posted[0];
        var cb := events[id].cb;
        posted := posted[1..];
        events := events - {id};
        executed := executed + [id];
        var failed := Invoke(cb);
        assert Abs() == next;
        if failed && !interactive {
          return Failed;
        }
      }
      EmptyQueueEmptyTree(Abs());
      if events != map[] {
        return Again;
      }
      return if vmPending then Again else Finished;
    }
  }

  lemma CallbackSize(cb: Callback)
    ensures Size(cb) == 1 + ActionsSize(cb.actions)
  {
  }

  lemma EmptyQueueEmptyTree(s: State)
    requires Inv(s) && s.queue == []
    ensures s.tree == map[]
  {
    assert forall x :: x !in s.tree;
  }
}

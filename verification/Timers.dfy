/** Timers of the shell. A pending timer is both in a tree, keyed by its id, and in a
    first-in first-out queue; callbacks may set and clear timers while the queue is being
    drained. */
module Timers {

  /** What a callback does: the timer calls it makes, in order, and whether it ends in an
      error. */
  datatype Callback = Callback(actions: seq<Action>, fails: bool)

  datatype Action =
    | SetTimer(args: seq<Arg>, immediate: bool)
    | ClearTimeout(args: seq<Arg>)

  datatype Arg = Function(cb: Callback) | Number(n: int) | Other

  /** A timer: its function and the arguments it will be called with. */
  datatype Event = Event(cb: Callback, args: seq<Arg>)

  datatype Error = TooFewArguments | NotAFunction | AsyncUnsupported | NoSuchTimer

  datatype Result = Ok(id: nat) | Done | Err(error: Error)

  /** Ids are 32-bit words. */
  const WORD: nat := 0x1_0000_0000

  // Arguments

  /** Checks the arguments of setTimeout and setImmediate; the delay must be absent, not a
      number or zero. */
  function CheckSet(args: seq<Arg>, immediate: bool): (r: Result)
    ensures r.Done? ==> |args| > 0 && args[0].Function?
    ensures !r.Ok?
  {
    if |args| == 0 then Err(TooFewArguments)
    else if !args[0].Function? then Err(NotAFunction)
    else if !immediate && |args| >= 2 && args[1].Number? && args[1].n != 0 then Err(AsyncUnsupported)
    else Done
  }

  function EventOf(args: seq<Arg>, immediate: bool): Event
    requires |args| > 0 && args[0].Function?
  {
    var n := if immediate then 1 else 2;
    Event(args[0].cb, if |args| >= n then args[n..] else [])
  }

  // Reference state machine

  /** `queue` holds the ids of pending timers and `tree` their events; `executed` and
      `cleared` record what became of the others, `issued` how many ids were given out. */
  datatype State = State(
    nextId: nat, tree: map<nat, Event>, queue: seq<nat>,
    executed: seq<nat>, cleared: set<nat>, issued: nat)

  const START: State := State(0, map[], [], [], {}, 0)

  function Post(s: State, ev: Event): State {
    s.(nextId := (s.nextId + 1) % WORD,
       tree := s.tree[s.nextId := ev],
       queue := s.queue + [s.nextId],
       issued := s.issued + 1)
  }

  function Without(queue: seq<nat>, id: nat): (r: seq<nat>)
    ensures forall x :: x in r ==> x in queue
  {
    if queue == [] then []
    else if queue[0] == id then queue[1..]
    else [queue[0]] + Without(queue[1..], id)
  }

  function Drop(s: State, id: nat): State {
    s.(tree := s.tree - {id}, queue := Without(s.queue, id), cleared := s.cleared + {id})
  }

  /** Takes the first timer of the queue to run it. */
  function Take(s: State): State
    requires s.queue != []
  {
    s.(tree := s.tree - {s.queue[0]}, queue := s.queue[1..], executed := s.executed + [s.queue[0]])
  }

  function Act(s: State, action: Action): State {
    match action
    case SetTimer(args, immediate) =>
      if CheckSet(args, immediate).Done? then Post(s, EventOf(args, immediate)) else s
    case ClearTimeout(args) =>
      if |args| > 0 && args[0].Number? && args[0].n % WORD in s.tree then Drop(s, args[0].n % WORD) else s
  }

  // Invariant

  predicate Increasing(s: seq<nat>) {
    forall i, j :: 0 <= i < j < |s| ==> s[i] < s[j]
  }

  /** The fate of an issued id. */
  predicate Pending(s: State, id: nat) { id in s.queue }

  predicate Executed(s: State, id: nat) { id in s.executed }

  predicate Cleared(s: State, id: nat) { id in s.cleared }

  ghost predicate Inv(s: State) {
    && s.nextId == s.issued % WORD
    && Increasing(s.executed + s.queue)
    && (forall id :: id in s.tree <==> id in s.queue)
    && (forall id :: id in s.queue || id in s.executed || id in s.cleared ==> id < s.issued)
    && (forall id: nat :: id < s.issued ==> Pending(s, id) || Executed(s, id) || Cleared(s, id))
    && (forall id :: id in s.cleared ==> id !in s.queue && id !in s.executed)
  }

  lemma IncreasingAppend(s: seq<nat>, x: nat)
    requires Increasing(s) && forall y :: y in s ==> y < x
    ensures Increasing(s + [x])
  {
    forall i, j | 0 <= i < j < |s + [x]| ensures (s + [x])[i] < (s + [x])[j] {
      assert s[i] in s;
    }
  }

  /** In an increasing log no id stands on both sides of any cut. */
  lemma IncreasingDisjoint(a: seq<nat>, b: seq<nat>, x: nat)
    requires Increasing(a + b) && x in b
    ensures x !in a
  {
    var j :| 0 <= j < |b| && b[j] == x;
    forall i | 0 <= i < |a| ensures a[i] != x {
      assert (a + b)[i] < (a + b)[|a| + j];
    }
  }

  lemma PostKeepsInv(s: State, ev: Event)
    requires Inv(s) && s.issued < WORD
    ensures Inv(Post(s, ev))
  {
    var s', id := Post(s, ev), s.nextId;
    assert id == s.issued;
    assert s'.executed + s'.queue == s.executed + s.queue + [id];
    IncreasingAppend(s.executed + s.queue, id);
    assert id in s'.queue;
    forall x: nat | x < s.issued ensures Pending(s', x) || Executed(s', x) || Cleared(s', x) {
      assert Pending(s, x) || Executed(s, x) || Cleared(s, x);
    }
  }

  lemma {:induction false} WithoutIncreasing(pre: seq<nat>, queue: seq<nat>, id: nat)
    requires Increasing(pre + queue)
    ensures Increasing(pre + Without(queue, id))
    ensures forall x :: x in Without(queue, id) <==> x in queue && x != id
    decreases |queue|
  {
    if queue != [] {
      var first, rest := queue[0], queue[1..];
      assert queue == [first] + rest && pre + queue == (pre + [first]) + rest;
      if first == id {
        IncreasingCut(pre, first, rest);
      } else {
        WithoutIncreasing(pre + [first], rest, id);
        assert pre + Without(queue, id) == (pre + [first]) + Without(rest, id);
      }
    }
  }

  lemma IncreasingCut(pre: seq<nat>, x: nat, rest: seq<nat>)
    requires Increasing(pre + [x] + rest)
    ensures Increasing(pre + rest) && x !in rest
  {
    var s, t := pre + [x] + rest, pre + rest;
    forall i, j | 0 <= i < j < |t| ensures t[i] < t[j] {
      var i', j' := if i < |pre| then i else i + 1, if j < |pre| then j else j + 1;
      assert s[i'] < s[j'];
    }
    forall k | 0 <= k < |rest| ensures rest[k] != x {
      assert s[|pre|] < s[|pre| + 1 + k];
    }
  }

  lemma DropKeepsInv(s: State, id: nat)
    requires Inv(s) && id in s.tree
    ensures Inv(Drop(s, id))
  {
    var s' := Drop(s, id);
    WithoutIncreasing(s.executed, s.queue, id);
    IncreasingDisjoint(s.executed, s.queue, id);
    forall x: nat | x < s.issued ensures Pending(s', x) || Executed(s', x) || Cleared(s', x) {
      assert Pending(s, x) || Executed(s, x) || Cleared(s, x);
    }
  }

  lemma TakeKeepsInv(s: State)
    requires Inv(s) && s.queue != []
    ensures Inv(Take(s))
  {
    var s', id := Take(s), s.queue[0];
    assert s.queue == [id] + s'.queue;
    assert s'.executed + s'.queue == s.executed + s.queue;
    IncreasingCut(s.executed, id, s'.queue);
    assert id in s'.executed;
    forall x: nat | x < s.issued ensures Pending(s', x) || Executed(s', x) || Cleared(s', x) {
      assert Pending(s, x) || Executed(s, x) || Cleared(s, x);
    }
  }

  lemma ActKeepsInv(s: State, action: Action)
    requires Inv(s) && Act(s, action).issued <= WORD
    ensures Inv(Act(s, action))
  {
    hide Inv;
    match action
    case SetTimer(args, immediate) =>
      if CheckSet(args, immediate).Done? {
        PostKeepsInv(s, EventOf(args, immediate));
      }
    case ClearTimeout(args) =>
      if |args| > 0 && args[0].Number? && args[0].n % WORD in s.tree {
        DropKeepsInv(s, args[0].n % WORD);
      }
  }

  // Runs

  datatype Step = Call(action: Action) | Run

  function Apply(s: State, step: Step): State {
    match step
    case Call(action) => Act(s, action)
    case Run => if s.queue == [] then s else Take(s)
  }

  function RunAll(s: State, steps: seq<Step>): State
    decreases |steps|
  {
    if steps == [] then s else RunAll(Apply(s, steps[0]), steps[1..])
  }

  /** No step takes an id back. */
  lemma {:induction false} IssuedGrows(s: State, steps: seq<Step>)
    ensures s.issued <= RunAll(s, steps).issued
    decreases |steps|
  {
    if steps != [] {
      IssuedGrows(Apply(s, steps[0]), steps[1..]);
    }
  }

  /** After any sequence of set, clear and run steps, in any order, that gives out at most
      2^32 ids. */
  lemma {:induction false} InvOfRun(s: State, steps: seq<Step>)
    requires Inv(s) && RunAll(s, steps).issued <= WORD
    ensures Inv(RunAll(s, steps))
    decreases |steps|
  {
    hide Inv, Act;
    if steps != [] {
      IssuedGrows(Apply(s, steps[0]), steps[1..]);
      match steps[0] {
        case Call(action) => ActKeepsInv(s, action);
        case Run => if s.queue != [] { TakeKeepsInv(s); }
      }
      InvOfRun(Apply(s, steps[0]), steps[1..]);
    }
  }

  /** Every issued id is in exactly one of the three fates, the tree and the queue hold the
      same ids, and the execution log is strictly increasing. */
  lemma TimersAreConsistent(steps: seq<Step>, id: nat)
    requires RunAll(START, steps).issued <= WORD
    ensures var s := RunAll(START, steps);
            && (id < s.issued <==> Pending(s, id) || Executed(s, id) || Cleared(s, id))
            && !(Pending(s, id) && Executed(s, id))
            && !(Pending(s, id) && Cleared(s, id))
            && !(Executed(s, id) && Cleared(s, id))
            && (id in s.tree <==> id in s.queue)
            && Increasing(s.executed)
  {
    hide RunAll;
    InvOfRun(START, steps);
    var s := RunAll(START, steps);
    if Pending(s, id) {
      IncreasingDisjoint(s.executed, s.queue, id);
    }
    assert forall i :: 0 <= i < |s.executed| ==> s.executed[i] == (s.executed + s.queue)[i];
  }

  // What a call does

  /** A timer is set for a function, with no delay unless it is immediate. */
  predicate MaySet(args: seq<Arg>, immediate: bool) {
    && |args| > 0 && args[0].Function?
    && (immediate || |args| == 1 || !args[1].Number? || args[1].n == 0)
  }

  lemma SetAcceptedIff(args: seq<Arg>, immediate: bool)
    ensures CheckSet(args, immediate) ==
            if MaySet(args, immediate) then Done
            else if args == [] then Err(TooFewArguments)
            else if !args[0].Function? then Err(NotAFunction)
            else Err(AsyncUnsupported)
  {
  }

  /** `ev` is the function that was passed and the arguments behind it, and behind the delay of
      a timeout. */
  predicate IsEventFor(ev: Event, args: seq<Arg>, immediate: bool) {
    var n := if immediate then 1 else 2;
    && |args| > 0 && args[0] == Function(ev.cb)
    && |ev.args| == (if |args| < n then 0 else |args| - n)
    && forall k :: 0 <= k < |ev.args| ==> ev.args[k] == args[n + k]
  }

  /** An accepted call puts its event into the tree under the next id and that id at the end of
      the queue; a refused one does nothing. */
  lemma SetStores(s: State, args: seq<Arg>, immediate: bool)
    ensures var t, id := Act(s, SetTimer(args, immediate)), s.nextId;
            if !MaySet(args, immediate) then t == s
            else
              && t.queue == s.queue + [id] && t.issued == s.issued + 1
              && t.executed == s.executed && t.cleared == s.cleared
              && t.tree.Keys == s.tree.Keys + {id} && IsEventFor(t.tree[id], args, immediate)
              && forall k :: k in s.tree && k != id ==> t.tree[k] == s.tree[k]
  {
    SetAcceptedIff(args, immediate);
  }

  /** Clearing a pending timer takes it out of both structures; nothing else is cleared. */
  lemma ClearRemoves(s: State, args: seq<Arg>)
    requires Inv(s)
    ensures var t := Act(s, ClearTimeout(args));
            if |args| > 0 && args[0].Number? && args[0].n % WORD in s.queue then
              var id := args[0].n % WORD;
              && !Pending(t, id) && id !in t.tree && Cleared(t, id)
              && (forall k :: k != id ==> (Pending(t, k) <==> Pending(s, k)) && (Cleared(t, k) <==> Cleared(s, k)))
              && t.executed == s.executed && t.issued == s.issued
            else t == s
  {
    if |args| > 0 && args[0].Number? && args[0].n % WORD in s.queue {
      WithoutIncreasing(s.executed, s.queue, args[0].n % WORD);
    }
  }

  /** An id that was issued is never issued again: while it stays in the tree its event stays
      the same, and once it has left it does not come back. */
  lemma {:induction false} EventStays(s: State, steps: seq<Step>, id: nat)
    requires Inv(s) && RunAll(s, steps).issued <= WORD && id < s.issued
    ensures var t := RunAll(s, steps);
            id in t.tree ==> id in s.tree && t.tree[id] == s.tree[id]
    decreases |steps|
  {
    hide Inv, Act;
    if steps != [] {
      var u := Apply(s, steps[0]);
      IssuedGrows(u, steps[1..]);
      match steps[0] {
        case Call(action) => ActKeepsInv(s, action);
        case Run => if s.queue != [] { TakeKeepsInv(s); }
      }
      StepKeepsEvent(s, steps[0], id);
      EventStays(u, steps[1..], id);
    }
  }

  lemma StepKeepsEvent(s: State, step: Step, id: nat)
    requires Inv(s) && Apply(s, step).issued <= WORD && id < s.issued
    ensures var t := Apply(s, step);
            t.issued >= s.issued && (id in t.tree ==> id in s.tree && t.tree[id] == s.tree[id])
  {
  }

  /** What has run has run, and what was cleared stays cleared. */
  lemma {:induction false} FateIsFinal(s: State, steps: seq<Step>, id: nat)
    ensures var t := RunAll(s, steps);
            (Executed(s, id) ==> Executed(t, id)) && (Cleared(s, id) ==> Cleared(t, id))
    decreases |steps|
  {
    if steps != [] {
      FateIsFinal(Apply(s, steps[0]), steps[1..], id);
    }
  }
}

/** The timer table of src/include/keycap/root/utility/schedule.hpp as a state machine whose
    steps are the code between two points where another thread can run. */
module Schedule {

  const COUNTERS := 0x1_0000_0000

  datatype Error = Ok | Aborted

  /** Where one scheduled item stands.
      Allocated: counter taken, lock not yet held by `add`.
      Waiting: timer in the table, its wait in progress.
      Queued: wait over, handler not yet run.
      Found: the handler found its timer in the table.
      Erased: the handler has cancelled its own item, the callback is not yet invoked.
      Dropped: the handler found no timer and returned. */
  datatype Phase =
    | Allocated
    | Waiting
    | Queued(error: Error)
    | Found(error: Error)
    | Erased(error: Error)
    | Invoked
    | Dropped

  /** `timers` is the key set of the table. Three histories: `adds` counts allocations,
      `invoked` lists callbacks with the error they were given, `cancelled` holds the items a
      cancel took out of the table before their handler looked them up. */
  datatype State = State(
    counter: nat,
    timers: set<nat>,
    phases: map<nat, Phase>,
    adds: nat,
    invoked: seq<(nat, Error)>,
    cancelled: set<nat>)

  datatype Step =
    | Allocate
    | Arm(id: nat)
    | Expire(id: nat)
    | Lookup(id: nat)
    | Erase(id: nat)
    | Invoke(id: nat)
    | Cancel(id: nat)
    | CancelAll

  const INITIAL := State(0, {}, map[], 0, [], {})

  predicate Enabled(s: State, step: Step)
  {
    match step
    case Allocate => true
    case Arm(id) => id in s.phases && s.phases[id].Allocated?
    case Expire(id) => id in s.phases && s.phases[id].Waiting?
    case Lookup(id) => id in s.phases && s.phases[id].Queued?
    case Erase(id) => id in s.phases && s.phases[id].Found?
    case Invoke(id) => id in s.phases && s.phases[id].Erased?
    case Cancel(_) => true
    case CancelAll => true
  }

  /** `timer.cancel()` ends a wait in progress and does nothing to one already over. */
  function CancelWait(p: Phase): Phase
  {
    if p.Waiting? then Queued(Aborted) else p
  }

  predicate BeforeLookup(p: Phase)
  {
    p.Waiting? || p.Queued?
  }

  /** `cancel(item)`: cancel the timer and take it out of the table, if it is there. */
  function CancelItem(s: State, id: nat): State
  {
    if id !in s.timers then s
    else if id !in s.phases then s.(timers := s.timers - {id})
    else
      s.(timers := s.timers - {id},
         phases := s.phases[id := CancelWait(s.phases[id])],
         cancelled := if BeforeLookup(s.phases[id]) then s.cancelled + {id} else s.cancelled)
  }

  function Next(s: State, step: Step): State
    requires Enabled(s, step)
  {
    match step
    case Allocate =>
      s.(counter := (s.counter + 1) % COUNTERS, phases := s.phases[s.counter := Allocated], adds := s.adds + 1)
    case Arm(id) =>
      s.(timers := s.timers + {id}, phases := s.phases[id := Waiting])
    case Expire(id) =>
      s.(phases := s.phases[id := Queued(Ok)])
    case Lookup(id) =>
      s.(phases := s.phases[id := if id in s.timers then Found(s.phases[id].error) else Dropped])
    case Erase(id) =>
      var t := CancelItem(s, id);
      t.(phases := t.phases[id := Erased(s.phases[id].error)])
    case Invoke(id) =>
      s.(phases := s.phases[id := Invoked], invoked := s.invoked + [(id, s.phases[id].error)])
    case Cancel(id) =>
      CancelItem(s, id)
    case CancelAll =>
      s.(phases := map id | id in s.phases :: if id in s.timers then CancelWait(s.phases[id]) else s.phases[id])
  }

  /** Runs are lists of steps, each enabled where it is taken. */
  predicate Possible(s: State, steps: seq<Step>)
    decreases |steps|
  {
    steps == [] || (Enabled(s, steps[0]) && Possible(Next(s, steps[0]), steps[1..]))
  }

  function Run(s: State, steps: seq<Step>): State
    requires Possible(s, steps)
    decreases |steps|
  {
    if steps == [] then s else Run(Next(s, steps[0]), steps[1..])
  }

  // -------------------------------------------------------------------- the object

  /** The table with its mutex; every method is one atomic section. The phases stand for
      asio and the threads, which own them in the original. */
  class Schedule {
    var counter: nat
    var timers: set<nat>
    var phases: map<nat, Phase>
    ghost var adds: nat
    ghost var invoked: seq<(nat, Error)>
    ghost var cancelled: set<nat>

    ghost function Contents(): State
      reads this
    {
      State(counter, timers, phases, adds, invoked, cancelled)
    }

    constructor ()
      ensures Contents() == INITIAL
    {
      counter, timers, phases := 0, {}, map[];
      adds, invoked, cancelled := 0, [], {};
    }

    /** `counter_++` at the head of `add`. */
    method Allocate() returns (id: nat)
      modifies this
      ensures id == old(counter) && Contents() == Next(old(Contents()), Step.Allocate)
    {
      id := counter;
      counter := (counter + 1) % COUNTERS;
      phases := phases[id := Allocated];
      adds := adds + 1;
    }

    /** The locked rest of `add`: the timer enters the table and its wait starts. */
    method Arm(id: nat)
      requires Enabled(Contents(), Step.Arm(id))
      modifies this
      ensures Contents() == Next(old(Contents()), Step.Arm(id))
    {
      timers := timers + {id};
      phases := phases[id := Waiting];
    }

    /** The clock ends the wait. */
    method Expire(id: nat)
      requires Enabled(Contents(), Step.Expire(id))
      modifies this
      ensures Contents() == Next(old(Contents()), Step.Expire(id))
    {
      phases := phases[id := Queued(Ok)];
    }

    /** The first statement of the completion handler. */
    method Lookup(id: nat) returns (found: bool)
      requires Enabled(Contents(), Step.Lookup(id))
      modifies this
      ensures found == (id in old(timers)) && Contents() == Next(old(Contents()), Step.Lookup(id))
    {
      found := id in timers;
      phases := phases[id := if found then Found(phases[id].error) else Dropped];
    }

    method Cancel(id: nat)
      modifies this
      ensures Contents() == Next(old(Contents()), Step.Cancel(id))
    {
      if id in timers {
        if id in phases {
          if BeforeLookup(phases[id]) {
            cancelled := cancelled + {id};
          }
          phases := phases[id := CancelWait(phases[id])];
        }
        timers := timers - {id};
      }
    }

    /** The handler's own call of `cancel`. */
    method Erase(id: nat)
      requires Enabled(Contents(), Step.Erase(id))
      modifies this
      ensures Contents() == Next(old(Contents()), Step.Erase(id))
    {
      var error := phases[id].error;
      Cancel(id);
      phases := phases[id := Erased(error)];
    }

    /** The handler's last statement: call the callback, or post it elsewhere. */
    method Invoke(id: nat) returns (error: Error)
      requires Enabled(Contents(), Step.Invoke(id))
      modifies this
      ensures error == old(phases[id].error) && Contents() == Next(old(Contents()), Step.Invoke(id))
    {
      error := phases[id].error;
      phases := phases[id := Invoked];
      invoked := invoked + [(id, error)];
    }

    /** Cancels every timer but leaves the table as it is. */
    method CancelAll()
      modifies this
      ensures Contents() == Next(old(Contents()), Step.CancelAll)
    {
      ghost var s := Contents();
      var todo := timers;
      while todo != {}
        invariant todo <= timers && Contents() == s.(phases := phases) && phases.Keys == s.phases.Keys
        invariant forall id :: id in s.phases ==>
                    phases[id] == if id in timers && id !in todo then CancelWait(s.phases[id]) else s.phases[id]
        decreases todo
      {
        var id :| id in todo;
        if id in phases {
          phases := phases[id := CancelWait(phases[id])];
        }
        todo := todo - {id};
      }
      assert phases == Next(s, Step.CancelAll).phases;
    }

    /** Any possible run on the object. */
    method Perform(steps: seq<Step>)
      requires Possible(Contents(), steps)
      modifies this
      ensures Contents() == Run(old(Contents()), steps)
    {
      for i := 0 to |steps|
        invariant Possible(Contents(), steps[i..])
        invariant Run(Contents(), steps[i..]) == Run(old(Contents()), steps)
      {
        assert steps[i..][0] == steps[i] && steps[i..][1..] == steps[i + 1..];
        match steps[i] {
          case Allocate => var id := Allocate();
          case Arm(id) => Arm(id);
          case Expire(id) => Expire(id);
          case Lookup(id) => var found := Lookup(id);
          case Erase(id) => Erase(id);
          case Invoke(id) => var error := Invoke(id);
          case Cancel(id) => Cancel(id);
          case CancelAll => CancelAll();
        }
      }
    }
  }

  // ------------------------------------------------------- properties of every run

  /** How often a callback has been invoked. */
  function Count(invoked: seq<(nat, Error)>, id: nat): nat
  {
    if invoked == [] then 0
    else Count(invoked[..|invoked| - 1], id) + if invoked[|invoked| - 1].0 == id then 1 else 0
  }

  lemma CountSnoc(invoked: seq<(nat, Error)>, p: (nat, Error), id: nat)
    ensures Count(invoked + [p], id) == Count(invoked, id) + if p.0 == id then 1 else 0
  {
    assert (invoked + [p])[..|invoked|] == invoked;
  }

  /** What holds of one item: a timer is in the table exactly while its item can still be
      found there, a callback has been invoked once or not at all, and an item is cancelled
      exactly when its handler drops it or is bound to. */
  ghost predicate ItemInvariant(s: State, id: nat)
  {
    if id !in s.phases then id !in s.timers && id !in s.cancelled && Count(s.invoked, id) == 0
    else
      match s.phases[id]
      case Allocated => id !in s.timers && id !in s.cancelled && Count(s.invoked, id) == 0
      case Waiting => id in s.timers && id !in s.cancelled && Count(s.invoked, id) == 0
      case Queued(_) => (id in s.timers <==> id !in s.cancelled) && Count(s.invoked, id) == 0
      case Found(_) => id !in s.cancelled && Count(s.invoked, id) == 0
      case Erased(_) => id !in s.timers && id !in s.cancelled && Count(s.invoked, id) == 0
      case Invoked => id !in s.timers && id !in s.cancelled && Count(s.invoked, id) == 1
      case Dropped => id !in s.timers && id in s.cancelled && Count(s.invoked, id) == 0
  }

  ghost predicate Invariant(s: State)
  {
    && s.counter == s.adds % COUNTERS
    && (s.adds <= COUNTERS ==>
          (forall id: nat :: id in s.phases <==> id < s.adds) && (forall id: nat :: ItemInvariant(s, id)))
  }

  lemma StepKeepsItem(s: State, step: Step, id: nat)
    requires Enabled(s, step) && ItemInvariant(s, id)
    requires step.Allocate? ==> s.counter !in s.phases
    ensures ItemInvariant(Next(s, step), id)
  {
    if step.Invoke? {
      CountSnoc(s.invoked, (step.id, s.phases[step.id].error), id);
    }
  }

  lemma StepKeepsInvariant(s: State, step: Step)
    requires Enabled(s, step) && Invariant(s)
    ensures Invariant(Next(s, step))
  {
    var t := Next(s, step);
    if t.adds <= COUNTERS {
      if step.Allocate? {
        assert s.counter == s.adds;
      }
      forall id: nat
        ensures ItemInvariant(t, id)
      {
        StepKeepsItem(s, step, id);
      }
    }
  }

  lemma {:induction false} RunKeepsInvariant(s: State, steps: seq<Step>)
    requires Possible(s, steps) && Invariant(s)
    ensures Invariant(Run(s, steps))
    decreases |steps|
  {
    if steps != [] {
      StepKeepsInvariant(s, steps[0]);
      RunKeepsInvariant(Next(s, steps[0]), steps[1..]);
    }
  }

  lemma InitialInvariant()
    ensures Invariant(INITIAL)
  {
  }

  /** In every interleaving of up to 2^32 adds with completions, handlers and cancels: the ids
      given out are 0..adds-1; every callback has been invoked at most once, and once exactly
      when its handler is past its last statement; no cancelled item was invoked or ever
      will be found; an item was dropped only because it was cancelled first. */
  lemma EveryInterleaving(steps: seq<Step>, id: nat)
    requires Possible(INITIAL, steps) && Run(INITIAL, steps).adds <= COUNTERS
    ensures var s := Run(INITIAL, steps);
            && (id in s.phases <==> id < s.adds)
            && Count(s.invoked, id) <= 1
            && (Count(s.invoked, id) == 1 <==> id in s.phases && s.phases[id] == Invoked)
            && (id in s.cancelled <==>
                  id in s.phases && (s.phases[id] == Dropped || (s.phases[id].Queued? && id !in s.timers)))
            && (id in s.phases && s.phases[id].Erased? ==> id !in s.timers)
            && (id in s.timers ==> id in s.phases && (BeforeLookup(s.phases[id]) || s.phases[id].Found?))
  {
    InitialInvariant();
    RunKeepsInvariant(INITIAL, steps);
    assert ItemInvariant(Run(INITIAL, steps), id);
  }

  lemma {:induction false} RunGrows(s: State, steps: seq<Step>)
    requires Possible(s, steps)
    ensures s.adds <= Run(s, steps).adds && s.cancelled <= Run(s, steps).cancelled
    decreases |steps|
  {
    if steps != [] {
      RunGrows(Next(s, steps[0]), steps[1..]);
    }
  }

  /** A cancel that finishes before the handler's lookup is final: whatever ran before it and
      whatever runs after it, that callback is never invoked. */
  lemma CancelBeforeLookupIsFinal(before: seq<Step>, id: nat, after: seq<Step>)
    requires Possible(INITIAL, before)
    requires var s := Run(INITIAL, before);
             id in s.phases && BeforeLookup(s.phases[id])
    requires Possible(CancelItem(Run(INITIAL, before), id), after)
    requires Run(CancelItem(Run(INITIAL, before), id), after).adds <= COUNTERS
    ensures Count(Run(CancelItem(Run(INITIAL, before), id), after).invoked, id) == 0
  {
    var s := Run(INITIAL, before);
    var t := Next(s, Cancel(id));
    InitialInvariant();
    RunKeepsInvariant(INITIAL, before);
    RunGrows(t, after);
    assert ItemInvariant(s, id);
    StepKeepsInvariant(s, Cancel(id));
    RunKeepsInvariant(t, after);
    assert ItemInvariant(Run(t, after), id);
  }

  /** The steps that bring one item to its end without any cancel. */
  function Finish(s: State, id: nat): seq<Step>
    requires id in s.phases
  {
    match s.phases[id]
    case Allocated => [Arm(id), Expire(id), Lookup(id), Erase(id), Invoke(id)]
    case Waiting => [Expire(id), Lookup(id), Erase(id), Invoke(id)]
    case Queued(_) => if id in s.timers then [Lookup(id), Erase(id), Invoke(id)] else [Lookup(id)]
    case Found(_) => [Erase(id), Invoke(id)]
    case Erased(_) => [Invoke(id)]
    case Invoked => []
    case Dropped => []
  }

  lemma RunCons(s: State, step: Step, steps: seq<Step>)
    requires Enabled(s, step) && Possible(Next(s, step), steps)
    ensures Possible(s, [step] + steps) && Run(s, [step] + steps) == Run(Next(s, step), steps)
  {
    assert ([step] + steps)[1..] == steps;
  }

  lemma FinishFrom(s: State, step: Step, id: nat)
    requires Enabled(s, step) && id in s.phases && id in Next(s, step).phases
    requires Finish(s, id) == [step] + Finish(Next(s, step), id)
    requires Possible(Next(s, step), Finish(Next(s, step), id))
    ensures Possible(s, Finish(s, id))
    ensures Run(s, Finish(s, id)) == Run(Next(s, step), Finish(Next(s, step), id))
  {
    RunCons(s, step, Finish(Next(s, step), id));
  }

  /** From every reachable state every item can still be brought to its end, and the end is
      the callback, exactly once, unless the item has been cancelled. */
  lemma {:induction false} EveryItemFinishes(s: State, id: nat)
    requires Invariant(s) && s.adds <= COUNTERS && id in s.phases
    ensures Possible(s, Finish(s, id))
    ensures var t := Run(s, Finish(s, id));
            id in t.phases && t.phases[id] == (if id in s.cancelled then Dropped else Invoked)
            && Count(t.invoked, id) == (if id in s.cancelled then 0 else 1)
            && t.cancelled == s.cancelled && t.adds == s.adds
    decreases |Finish(s, id)|
  {
    assert ItemInvariant(s, id);
    var steps := Finish(s, id);
    if steps != [] {
      StepKeepsInvariant(s, steps[0]);
      EveryItemFinishes(Next(s, steps[0]), id);
      FinishFrom(s, steps[0], id);
    }
  }

  /** `cancel_all` only hurries the callbacks. An item not yet looked up and not cancelled keeps its
      timer in the table and is then invoked: with the aborted error if it was waiting, with
      the error its wait had ended with if that was over. */
  lemma CancelAllStillInvokes(s: State, id: nat)
    requires Invariant(s) && s.adds <= COUNTERS
    requires id in s.phases && BeforeLookup(s.phases[id]) && id !in s.cancelled
    ensures var t := Next(s, CancelAll);
            var error := if s.phases[id].Waiting? then Aborted else s.phases[id].error;
            && t.timers == s.timers && t.cancelled == s.cancelled && t.phases[id] == Queued(error)
            && Finish(t, id) == [Lookup(id), Erase(id), Invoke(id)]
            && Possible(t, Finish(t, id))
            && Run(t, Finish(t, id)).invoked == s.invoked + [(id, error)]
  {
    assert ItemInvariant(s, id);
    var t := Next(s, CancelAll);
    StepKeepsInvariant(s, CancelAll);
    EveryItemFinishes(t, id);
    var t1 := Next(t, Lookup(id));
    var t2 := Next(t1, Erase(id));
    RunCons(t2, Invoke(id), []);
    RunCons(t1, Erase(id), [Invoke(id)]);
    RunCons(t, Lookup(id), [Erase(id), Invoke(id)]);
    assert [Lookup(id)] + [Erase(id), Invoke(id)] == Finish(t, id);
    assert [Erase(id)] + [Invoke(id)] == [Erase(id), Invoke(id)] && [Invoke(id)] + [] == [Invoke(id)];
  }

  /** After `cancel_all`, in some continuation an item's callback has been invoked exactly if the item
      has not been cancelled by itself. */
  lemma CancelAllCancelsNothing(s: State, id: nat)
    requires Invariant(s) && s.adds <= COUNTERS && id in s.phases
    ensures (exists steps :: Possible(Next(s, CancelAll), steps)
                             && Run(Next(s, CancelAll), steps).adds <= COUNTERS
                             && Count(Run(Next(s, CancelAll), steps).invoked, id) == 1)
       <==> id !in s.cancelled
  {
    var t := Next(s, CancelAll);
    StepKeepsInvariant(s, CancelAll);
    if id !in s.cancelled {
      EveryItemFinishes(t, id);
    } else {
      forall steps | Possible(t, steps) && Run(t, steps).adds <= COUNTERS
        ensures Count(Run(t, steps).invoked, id) == 0
      {
        RunGrows(t, steps);
        RunKeepsInvariant(t, steps);
        assert ItemInvariant(Run(t, steps), id);
      }
    }
  }

  // ------------------------------------------------------- what the steps themselves say

  lemma {:induction false} RunSnoc(s: State, steps: seq<Step>)
    requires Possible(s, steps) && steps != []
    ensures var before, last := steps[..|steps| - 1], steps[|steps| - 1];
            Possible(s, before) && Enabled(Run(s, before), last) && Run(s, steps) == Next(Run(s, before), last)
    decreases |steps|
  {
    if |steps| > 1 {
      var before := steps[..|steps| - 1];
      RunSnoc(Next(s, steps[0]), steps[1..]);
      assert steps[1..][..|steps| - 2] == before[1..];
    }
  }

  /** The state a run of at most 2^32 adds has reached before its step k. */
  lemma {:induction false} PrefixPossible(steps: seq<Step>, k: nat)
    requires Possible(INITIAL, steps) && k <= |steps|
    ensures Possible(INITIAL, steps[..k])
    ensures k < |steps| ==> Enabled(Run(INITIAL, steps[..k]), steps[k])
    ensures Run(INITIAL, steps[..k]).adds <= Run(INITIAL, steps).adds
    decreases |steps|
  {
    if k == |steps| {
      assert steps[..k] == steps;
    } else {
      var before := steps[..|steps| - 1];
      RunSnoc(INITIAL, steps);
      PrefixPossible(before, k);
      assert before[..k] == steps[..k];
    }
  }

  /** One step seen from its end: the state before it, and what is known of an item there. */
  lemma LastStep(steps: seq<Step>, id: nat)
    requires Possible(INITIAL, steps) && steps != [] && Run(INITIAL, steps).adds <= COUNTERS
    ensures var before, last := steps[..|steps| - 1], steps[|steps| - 1];
            && Possible(INITIAL, before) && Enabled(Run(INITIAL, before), last)
            && Run(INITIAL, steps) == Next(Run(INITIAL, before), last)
            && Run(INITIAL, before).adds <= COUNTERS
            && ItemInvariant(Run(INITIAL, before), id)
            && (last.Allocate? ==> Run(INITIAL, before).counter !in Run(INITIAL, before).phases)
  {
    RunSnoc(INITIAL, steps);
    var s := Run(INITIAL, steps[..|steps| - 1]);
    InitialInvariant();
    RunKeepsInvariant(INITIAL, steps[..|steps| - 1]);
    assert ItemInvariant(s, id);
    if steps[|steps| - 1].Allocate? {
      assert s.counter == s.adds;
    }
  }

  predicate Armed(s: State, id: nat)
  {
    id in s.phases && !s.phases[id].Allocated?
  }

  lemma {:induction false} NotYetArmed(steps: seq<Step>, id: nat)
    requires Possible(INITIAL, steps) && Run(INITIAL, steps).adds <= COUNTERS
    ensures Armed(Run(INITIAL, steps), id) <==> Arm(id) in steps
    decreases |steps|
  {
    if steps != [] {
      LastStep(steps, id);
      NotYetArmed(steps[..|steps| - 1], id);
      assert steps == steps[..|steps| - 1] + [steps[|steps| - 1]];
    }
  }

  /** Any step but its own arming, seen from an armed item. */
  lemma StepAfterArm(s: State, step: Step, id: nat)
    requires Enabled(s, step) && ItemInvariant(s, id) && step != Arm(id)
    requires step.Allocate? ==> s.counter !in s.phases
    requires Armed(Next(s, step), id)
    ensures Armed(s, id)
    ensures BeforeLookup(Next(s, step).phases[id]) ==>
              BeforeLookup(s.phases[id]) && (id !in Next(s, step).timers <==> id !in s.timers || step == Cancel(id))
  {
  }

  /** An armed item was armed by exactly one step, and while its handler has not looked it up its
      timer is missing from the table exactly if it has been cancelled since. */
  lemma {:induction false} ArmedOnce(steps: seq<Step>, id: nat) returns (i: nat)
    requires Possible(INITIAL, steps) && Run(INITIAL, steps).adds <= COUNTERS
    requires Armed(Run(INITIAL, steps), id)
    ensures i < |steps| && steps[i] == Arm(id) && Arm(id) !in steps[..i] && Arm(id) !in steps[i + 1..]
    ensures var s := Run(INITIAL, steps);
            BeforeLookup(s.phases[id]) ==> (id !in s.timers <==> Cancel(id) in steps[i + 1..])
    decreases |steps|
  {
    var n := |steps| - 1;
    var before := steps[..n];
    LastStep(steps, id);
    NotYetArmed(before, id);
    if steps[n] == Arm(id) {
      i := n;
    } else {
      StepAfterArm(Run(INITIAL, before), steps[n], id);
      i := ArmedOnce(before, id);
      assert before[..i] == steps[..i] && steps[i + 1..] == before[i + 1..] + [steps[n]];
    }
  }

  /** In every run: a handler that looks its item up was armed by exactly one earlier step, and it
      drops the item exactly if a cancel of that item stands between the two. */
  lemma DroppedIffCancelled(steps: seq<Step>, k: nat, id: nat) returns (i: nat)
    requires Possible(INITIAL, steps) && Run(INITIAL, steps).adds <= COUNTERS
    requires k < |steps| && steps[k] == Lookup(id)
    ensures i < k && steps[i] == Arm(id) && Arm(id) !in steps[..i] && Arm(id) !in steps[i + 1..k]
    ensures Possible(INITIAL, steps[..k + 1]) && id in Run(INITIAL, steps[..k + 1]).phases
    ensures Run(INITIAL, steps[..k + 1]).phases[id] == Dropped <==> Cancel(id) in steps[i + 1..k]
  {
    PrefixPossible(steps, k);
    PrefixPossible(steps, k + 1);
    i := ArmedOnce(steps[..k], id);
    RunSnoc(INITIAL, steps[..k + 1]);
    assert steps[..k + 1][..k] == steps[..k];
    assert steps[..k][..i] == steps[..i] && steps[..k][i + 1..] == steps[i + 1..k];
  }

  predicate PastLookup(p: Phase)
  {
    p.Found? || p.Erased? || p.Invoked?
  }

  lemma {:induction false} FoundByLookup(steps: seq<Step>, id: nat) returns (j: nat)
    requires Possible(INITIAL, steps) && Run(INITIAL, steps).adds <= COUNTERS
    requires id in Run(INITIAL, steps).phases && PastLookup(Run(INITIAL, steps).phases[id])
    ensures j < |steps| && steps[j] == Lookup(id)
    ensures Possible(INITIAL, steps[..j]) && id in Run(INITIAL, steps[..j]).timers
    decreases |steps|
  {
    var n := |steps| - 1;
    LastStep(steps, id);
    if steps[n] == Lookup(id) {
      j := n;
    } else {
      j := FoundByLookup(steps[..n], id);
      assert steps[..n][..j] == steps[..j];
    }
  }

  /** In every run: a callback is invoked only after its handler has found its timer in the table. */
  lemma InvokedOnlyIfFound(steps: seq<Step>, k: nat, id: nat) returns (j: nat)
    requires Possible(INITIAL, steps) && Run(INITIAL, steps).adds <= COUNTERS
    requires k < |steps| && steps[k] == Invoke(id)
    ensures j < k && steps[j] == Lookup(id)
    ensures Possible(INITIAL, steps[..j]) && id in Run(INITIAL, steps[..j]).timers
  {
    PrefixPossible(steps, k);
    j := FoundByLookup(steps[..k], id);
    assert steps[..k][..j] == steps[..j];
  }

  /** What the error an item carries says about the steps so far. */
  ghost predicate ErrorExplained(steps: seq<Step>, s: State, id: nat)
  {
    if id !in s.phases || s.phases[id].Allocated? || s.phases[id].Waiting? then Expire(id) !in steps
    else if s.phases[id].Queued? || s.phases[id].Found? || s.phases[id].Erased? then
      && (s.phases[id].error == Ok <==> Expire(id) in steps)
      && (s.phases[id].error == Aborted && id !in s.cancelled ==> CancelAll in steps)
    else true
  }

  lemma ErrorStep(steps: seq<Step>, s: State, step: Step, id: nat)
    requires Enabled(s, step) && ItemInvariant(s, id) && ErrorExplained(steps, s, id)
    requires step.Allocate? ==> s.counter !in s.phases
    ensures ErrorExplained(steps + [step], Next(s, step), id)
  {
    assert Expire(id) in steps + [step] <==> Expire(id) in steps || step == Expire(id);
    assert CancelAll in steps + [step] <==> CancelAll in steps || step == CancelAll;
  }

  lemma {:induction false} EveryErrorExplained(steps: seq<Step>, id: nat)
    requires Possible(INITIAL, steps) && Run(INITIAL, steps).adds <= COUNTERS
    ensures ErrorExplained(steps, Run(INITIAL, steps), id)
    decreases |steps|
  {
    if steps != [] {
      var before, last := steps[..|steps| - 1], steps[|steps| - 1];
      LastStep(steps, id);
      EveryErrorExplained(before, id);
      ErrorStep(before, Run(INITIAL, before), last, id);
      assert before + [last] == steps;
    }
  }

  /** In every run: a callback is told Ok exactly if its wait expired, and else that it was aborted,
      which takes a `cancel_all`. */
  lemma InvocationError(steps: seq<Step>, k: nat, id: nat)
    requires Possible(INITIAL, steps) && Run(INITIAL, steps).adds <= COUNTERS
    requires k < |steps| && steps[k] == Invoke(id)
    ensures Possible(INITIAL, steps[..k]) && Possible(INITIAL, steps[..k + 1])
    ensures Run(INITIAL, steps[..k + 1]).invoked ==
            Run(INITIAL, steps[..k]).invoked + [(id, if Expire(id) in steps[..k] then Ok else Aborted)]
    ensures Expire(id) !in steps[..k] ==> CancelAll in steps[..k]
  {
    PrefixPossible(steps, k);
    PrefixPossible(steps, k + 1);
    EveryErrorExplained(steps[..k], id);
    InitialInvariant();
    RunKeepsInvariant(INITIAL, steps[..k]);
    assert ItemInvariant(Run(INITIAL, steps[..k]), id);
    RunSnoc(INITIAL, steps[..k + 1]);
    assert steps[..k + 1][..k] == steps[..k];
  }
}

/** Properties of the event resolver. */
module ResolverFacts {
  import opened Failures
  import opened ConfigTree
  import opened Events
  import opened Resolver

  // ---------------------------------------------------------------------
  // deserialize: one event per top-level child

  /** The registry is produced exactly when every top-level child resolves
      with an empty banned set. */
  lemma {:induction false} DeserializeSucceedsIffAllResolve(env: Env, children: map<string, Node>, order: seq<string>)
    ensures Deserialized(env, children, order).Ok? <==>
            forall i :: 0 <= i < |order| ==> ResolveEvent(env, children, Some(order[i]), {}).Ok?
    decreases |order|
  {
    if |order| > 0 {
      var init := order[..|order| - 1];
      DeserializeSucceedsIffAllResolve(env, children, init);
      assert forall i :: 0 <= i < |init| ==> init[i] == order[i];
    }
  }

  /** The registry has one key per top-level child: the key its name parses to. */
  lemma {:induction false} DeserializedKeys(env: Env, children: map<string, Node>, order: seq<string>)
    requires Deserialized(env, children, order).Ok?
    ensures Deserialized(env, children, order).value.Keys == set i | 0 <= i < |order| :: env.parseKey(order[i])
    decreases |order|
  {
    if |order| > 0 {
      var init := order[..|order| - 1];
      DeserializedKeys(env, children, init);
      var keys := set i | 0 <= i < |order| :: env.parseKey(order[i]);
      var initKeys := set i | 0 <= i < |init| :: env.parseKey(init[i]);
      assert forall i :: 0 <= i < |init| ==> init[i] == order[i];
      assert keys == initKeys + {env.parseKey(order[|order| - 1])};
    }
  }

  /** When no other child shares its key, a child's event is registered under
      its key exactly as readEvent resolves it. */
  lemma {:induction false} DeserializeRegistersChild(env: Env, children: map<string, Node>, order: seq<string>, i: nat)
    requires Deserialized(env, children, order).Ok?
    requires i < |order|
    requires forall j :: 0 <= j < |order| && j != i ==> env.parseKey(order[j]) != env.parseKey(order[i])
    ensures ResolveEvent(env, children, Some(order[i]), {}).Ok?
    ensures env.parseKey(order[i]) in Deserialized(env, children, order).value
    ensures Deserialized(env, children, order).value[env.parseKey(order[i])]
            == ResolveEvent(env, children, Some(order[i]), {}).value
    decreases |order|
  {
    var init := order[..|order| - 1];
    if i < |order| - 1 {
      DeserializeRegistersChild(env, children, init, i);
    }
  }

  /** The first child, in visiting order, that fails to resolve decides the
      failure of the whole load. */
  lemma {:induction false} DeserializeFailsAtFirstFailure(env: Env, children: map<string, Node>, order: seq<string>, i: nat)
    requires i < |order|
    requires forall j :: 0 <= j < i ==> ResolveEvent(env, children, Some(order[j]), {}).Ok?
    requires ResolveEvent(env, children, Some(order[i]), {}).Fail?
    ensures Deserialized(env, children, order) == Fail(ResolveEvent(env, children, Some(order[i]), {}).fault)
  {
    var prefix := order[..i];
    DeserializeSucceedsIffAllResolve(env, children, prefix);
    assert forall j :: 0 <= j < |prefix| ==> prefix[j] == order[j];
    assert order[..i + 1][..i] == prefix;
    DeserializeFailingPrefix(env, children, order, i + 1);
  }

  // ---------------------------------------------------------------------
  // Thresholds and the step list

  /** `alcohol`, `toxins` and `probability-weight` are 0 when absent and read
      with getInt when present; an absent `steps` list gives no steps. */
  lemma ThresholdsAndDefaults(env: Env, events: map<string, Node>, name: string, banned: set<string>)
    requires ResolveEvent(env, events, Some(name), banned).Ok?
    ensures var data := ChildrenMap(events[name]);
            var e := ResolveEvent(env, events, Some(name), banned).value;
            && e.alcohol == (if "alcohol" in data then env.getInt(data["alcohol"]) else 0)
            && e.toxins == (if "toxins" in data then env.getInt(data["toxins"]) else 0)
            && e.probabilityWeight == (if "probability-weight" in data then env.getInt(data["probability-weight"]) else 0)
            && ("steps" !in data ==> e.steps == [])
  {
    var data := ChildrenMap(events[name]);
    if "steps" !in data {
      assert ResolveSteps(env, events, banned, name, []) == Ok([]);
    }
  }

  /** Concatenation of the expansions of a list of raw steps. */
  function Flatten(parts: seq<seq<Step>>): seq<Step>
  {
    if |parts| == 0 then [] else Flatten(parts[..|parts| - 1]) + parts[|parts| - 1]
  }

  /** The steps of an event are the in-order concatenation of the expansion
      of each raw step. */
  lemma {:induction false} StepsAreConcatenation(env: Env, events: map<string, Node>, banned: set<string>, eventName: string,
                                                 raw: seq<map<string, Node>>, parts: seq<seq<Step>>)
    requires eventName in events && eventName !in banned
    requires |parts| == |raw|
    requires forall i :: 0 <= i < |raw| ==> ResolveStep(env, events, banned, eventName, raw[i]) == Ok(parts[i])
    ensures ResolveSteps(env, events, banned, eventName, raw) == Ok(Flatten(parts))
    decreases |raw|
  {
    if |raw| > 0 {
      StepsAreConcatenation(env, events, banned, eventName, raw[..|raw| - 1], parts[..|parts| - 1]);
    }
  }

  /** A step list resolves only if every one of its steps does, and then
      gives one expansion per raw step. */
  lemma {:induction false} StepsSucceedOnlyIfEveryStep(env: Env, events: map<string, Node>, banned: set<string>, eventName: string,
                                                       raw: seq<map<string, Node>>)
    requires eventName in events && eventName !in banned
    requires ResolveSteps(env, events, banned, eventName, raw).Ok?
    ensures forall i :: 0 <= i < |raw| ==> ResolveStep(env, events, banned, eventName, raw[i]).Ok?
    decreases |raw|
  {
    if |raw| > 0 {
      var init := raw[..|raw| - 1];
      StepsSucceedOnlyIfEveryStep(env, events, banned, eventName, init);
      assert forall i :: 0 <= i < |init| ==> init[i] == raw[i];
    }
  }

  /** The first raw step that fails decides the failure of the list. */
  lemma StepsFailAtFirstFailure(env: Env, events: map<string, Node>, banned: set<string>, eventName: string,
                                raw: seq<map<string, Node>>, i: nat)
    requires eventName in events && eventName !in banned
    requires i < |raw|
    requires forall j :: 0 <= j < i ==> ResolveStep(env, events, banned, eventName, raw[j]).Ok?
    requires ResolveStep(env, events, banned, eventName, raw[i]).Fail?
    ensures ResolveSteps(env, events, banned, eventName, raw)
            == Fail(ResolveStep(env, events, banned, eventName, raw[i]).fault)
  {
    var prefix := raw[..i];
    var parts := seq(i, j requires 0 <= j < i => ResolveStep(env, events, banned, eventName, raw[j]).value);
    StepsAreConcatenation(env, events, banned, eventName, prefix, parts);
    assert raw[..i + 1][..i] == prefix;
    FailingPrefixDecides(env, events, banned, eventName, raw, i + 1);
  }

  // ---------------------------------------------------------------------
  // The wait step

  /** A `wait` node with both keys gives its condition step, then its
      duration step. */
  lemma WaitBothInOrder(env: Env, step: map<string, Node>, condition: Condition, ticks: nat)
    requires "condition" in step && "duration" in step
    requires env.getString(step["condition"]).Some? && env.parseCondition(env.getString(step["condition"]).value) == Ok(condition)
    requires env.getString(step["duration"]).Some? && env.parseWait(env.getString(step["duration"]).value) == Ok(ticks)
    ensures ResolveWait(env, step) == Ok([ConditionalWait(condition), Wait(ticks)])
  {
    assert [ConditionalWait(condition)] + [Wait(ticks)] == [ConditionalWait(condition), Wait(ticks)];
  }

  /** A `wait` node with only one of the keys gives exactly one step. */
  lemma WaitSingle(env: Env, step: map<string, Node>)
    requires "condition" in step <==> "duration" !in step
    requires ResolveWait(env, step).Ok?
    ensures |ResolveWait(env, step).value| == 1
    ensures "condition" in step ==> ResolveWait(env, step).value[0].ConditionalWait?
    ensures "duration" in step ==> ResolveWait(env, step).value[0].Wait?
  {
  }

  // ---------------------------------------------------------------------
  // The banned set: cycles fail, successes do not depend on it

  /** What a successful resolution yields does not depend on the banned set:
      resolving with fewer banned names gives the same event. */
  lemma {:induction false} EventBannedMonotone(env: Env, events: map<string, Node>, name: Option<string>,
                                               banned: set<string>, fewer: set<string>)
    requires fewer <= banned
    requires ResolveEvent(env, events, name, banned).Ok?
    ensures ResolveEvent(env, events, name, fewer) == ResolveEvent(env, events, name, banned)
    decreases |events.Keys - banned|, 2, 0
  {
    var data := ChildrenMap(events[name.value]);
    var raw := RawSteps(env, data).value;
    StepsBannedMonotone(env, events, banned, fewer, name.value, raw);
  }

  lemma {:induction false} StepsBannedMonotone(env: Env, events: map<string, Node>, banned: set<string>, fewer: set<string>,
                                               eventName: string, raw: seq<map<string, Node>>)
    requires eventName in events && eventName !in banned && fewer <= banned
    requires ResolveSteps(env, events, banned, eventName, raw).Ok?
    ensures ResolveSteps(env, events, fewer, eventName, raw) == ResolveSteps(env, events, banned, eventName, raw)
    decreases |events.Keys - banned|, 1, |raw|
  {
    if |raw| > 0 {
      StepsBannedMonotone(env, events, banned, fewer, eventName, raw[..|raw| - 1]);
      StepBannedMonotone(env, events, banned, fewer, eventName, raw[|raw| - 1]);
    }
  }

  lemma {:induction false} StepBannedMonotone(env: Env, events: map<string, Node>, banned: set<string>, fewer: set<string>,
                                              eventName: string, step: map<string, Node>)
    requires eventName in events && eventName !in banned && fewer <= banned
    requires ResolveStep(env, events, banned, eventName, step).Ok?
    ensures ResolveStep(env, events, fewer, eventName, step) == ResolveStep(env, events, banned, eventName, step)
    decreases |events.Keys - banned|, 0, 0
  {
    var t := TypeOf(env, step);
    if t.Some? && env.parseKey(t.value) !in env.drunkEvents && t.value == "event" {
      BannedGrows(events.Keys, banned, eventName);
      EventBannedMonotone(env, events, env.getString(step["event"]), banned + {eventName}, fewer + {eventName});
    }
  }

  /** Along every chain of nested events below `e`, no event repeats a name
      of `names` or of an event above it. */
  ghost predicate AvoidsNames(e: Event, names: set<string>)
    decreases e
  {
    && e.name !in names
    && forall j :: 0 <= j < |e.steps| && e.steps[j].Nested? ==> AvoidsNames(e.steps[j].event, names + {e.name})
  }

  /** Every resolved event is cycle-free: along every chain of nested events
      the names are pairwise distinct and avoid the banned set. */
  lemma {:induction false} ResolvedEventIsAcyclic(env: Env, events: map<string, Node>, name: Option<string>, banned: set<string>)
    requires ResolveEvent(env, events, name, banned).Ok?
    ensures AvoidsNames(ResolveEvent(env, events, name, banned).value, banned)
    decreases |events.Keys - banned|, 2, 0
  {
    var data := ChildrenMap(events[name.value]);
    var raw := RawSteps(env, data).value;
    ResolvedStepsAreAcyclic(env, events, banned, name.value, raw);
  }

  lemma {:induction false} ResolvedStepsAreAcyclic(env: Env, events: map<string, Node>, banned: set<string>, eventName: string,
                                                   raw: seq<map<string, Node>>)
    requires eventName in events && eventName !in banned
    requires ResolveSteps(env, events, banned, eventName, raw).Ok?
    ensures var ss := ResolveSteps(env, events, banned, eventName, raw).value;
            forall j :: 0 <= j < |ss| && ss[j].Nested? ==> AvoidsNames(ss[j].event, banned + {eventName})
    decreases |events.Keys - banned|, 1, |raw|
  {
    if |raw| > 0 {
      ResolvedStepsAreAcyclic(env, events, banned, eventName, raw[..|raw| - 1]);
      ResolvedStepIsAcyclic(env, events, banned, eventName, raw[|raw| - 1]);
    }
  }

  lemma {:induction false} ResolvedStepIsAcyclic(env: Env, events: map<string, Node>, banned: set<string>, eventName: string,
                                                 step: map<string, Node>)
    requires eventName in events && eventName !in banned
    requires ResolveStep(env, events, banned, eventName, step).Ok?
    ensures var ss := ResolveStep(env, events, banned, eventName, step).value;
            forall j :: 0 <= j < |ss| && ss[j].Nested? ==> AvoidsNames(ss[j].event, banned + {eventName})
    decreases |events.Keys - banned|, 0, 0
  {
    var t := TypeOf(env, step);
    if t.Some? && env.parseKey(t.value) !in env.drunkEvents && t.value == "event" {
      BannedGrows(events.Keys, banned, eventName);
      ResolvedEventIsAcyclic(env, events, env.getString(step["event"]), banned + {eventName});
    } else {
      OnlyEventStepsNest(env, events, banned, eventName, step);
    }
  }

  /** A step of type `event` (not shadowed by a builtin) with an `event`
      field reads the named event with the current event added to the banned
      set, and yields exactly that event, or its exception. */
  lemma EventStepReadsReference(env: Env, events: map<string, Node>, banned: set<string>, eventName: string,
                                step: map<string, Node>)
    requires eventName in events && eventName !in banned
    requires TypeOf(env, step) == Some("event") && env.parseKey("event") !in env.drunkEvents && "event" in step
    ensures var r := ResolveStep(env, events, banned, eventName, step);
            var nested := ResolveEvent(env, events, env.getString(step["event"]), banned + {eventName});
            && (r.Ok? <==> nested.Ok?)
            && (r.Ok? ==> r.value == [Nested(nested.value)])
            && (r.Fail? ==> r.fault == nested.fault)
  {
  }

  /** Only a step of type `event` (not shadowed by a builtin) yields a nested event. */
  lemma OnlyEventStepsNest(env: Env, events: map<string, Node>, banned: set<string>, eventName: string,
                           step: map<string, Node>)
    requires eventName in events && eventName !in banned
    requires ResolveStep(env, events, banned, eventName, step).Ok?
    requires env.parseKey(TypeOf(env, step).value) in env.drunkEvents || TypeOf(env, step).value != "event"
    ensures var ss := ResolveStep(env, events, banned, eventName, step).value;
            forall j :: 0 <= j < |ss| ==> !ss[j].Nested?
  {
    var ss := ResolveStep(env, events, banned, eventName, step).value;
    var stepType := TypeOf(env, step).value;
    if env.parseKey(stepType) !in env.drunkEvents && stepType == "wait" {
      assert forall j :: 0 <= j < |ss| ==> ss[j].Wait? || ss[j].ConditionalWait?;
    }
  }

  // ---------------------------------------------------------------------
  // The loop guard raises only on a real cycle

  /** An exception whose reason is the infinite-loop message. */
  predicate LoopFailure<T>(r: Result<T>)
  {
    r.Fail? && !r.fault.NullPointer? && r.fault.reason.InfiniteLoop?
  }

  /** The external parsers never raise the infinite-loop message themselves. */
  ghost predicate ParsersRaiseNoLoop(env: Env)
  {
    && (forall n :: !LoopFailure(env.getList(n)))
    && (forall t :: !LoopFailure(env.parseCondition(t)))
    && (forall t :: !LoopFailure(env.parseWait(t)))
    && (forall n :: !LoopFailure(env.decodeInterval(n)))
    && (forall n :: !LoopFailure(env.decodeLocation(n)))
  }

  /** If `step` refers to an event, that event ranks below `eventName`. */
  predicate RefersBelow(env: Env, rank: string -> nat, eventName: string, step: map<string, Node>)
  {
    (TypeOf(env, step) == Some("event") && env.parseKey("event") !in env.drunkEvents && "event" in step
     && env.getString(step["event"]).Some?) ==> rank(env.getString(step["event"]).value) < rank(eventName)
  }

  /** Every `event` reference in the section goes to an event of strictly
      smaller rank: the reference graph has no cycle. */
  ghost predicate RankedReferences(env: Env, events: map<string, Node>, rank: string -> nat)
  {
    forall n :: n in events && RawSteps(env, ChildrenMap(events[n])).Ok? ==>
      var raw := RawSteps(env, ChildrenMap(events[n])).value;
      forall i :: 0 <= i < |raw| ==> RefersBelow(env, rank, n, raw[i])
  }

  /** The banned set is only ever entered through a cycle: when the references
      of the section have no cycle and every banned name ranks above `name`,
      reading `name` never fails with the infinite-loop error. */
  lemma {:induction false} AcyclicEventNeverLoops(env: Env, events: map<string, Node>, rank: string -> nat,
                                                  name: string, banned: set<string>)
    requires ParsersRaiseNoLoop(env) && RankedReferences(env, events, rank)
    requires forall b :: b in banned ==> rank(name) < rank(b)
    ensures !LoopFailure(ResolveEvent(env, events, Some(name), banned))
    decreases |events.Keys - banned|, 2, 0
  {
    assert name in banned ==> rank(name) < rank(name);
    if name in events {
      var raw := RawSteps(env, ChildrenMap(events[name]));
      if raw.Ok? {
        AcyclicStepsNeverLoop(env, events, rank, banned, name, raw.value);
      }
    }
  }

  lemma {:induction false} AcyclicStepsNeverLoop(env: Env, events: map<string, Node>, rank: string -> nat,
                                                 banned: set<string>, eventName: string, raw: seq<map<string, Node>>)
    requires eventName in events && eventName !in banned
    requires ParsersRaiseNoLoop(env) && RankedReferences(env, events, rank)
    requires forall b :: b in banned ==> rank(eventName) < rank(b)
    requires forall i :: 0 <= i < |raw| ==> RefersBelow(env, rank, eventName, raw[i])
    ensures !LoopFailure(ResolveSteps(env, events, banned, eventName, raw))
    decreases |events.Keys - banned|, 1, |raw|
  {
    if |raw| > 0 {
      AcyclicStepsNeverLoop(env, events, rank, banned, eventName, raw[..|raw| - 1]);
      AcyclicStepNeverLoops(env, events, rank, banned, eventName, raw[|raw| - 1]);
    }
  }

  lemma {:induction false} AcyclicStepNeverLoops(env: Env, events: map<string, Node>, rank: string -> nat,
                                                 banned: set<string>, eventName: string, step: map<string, Node>)
    requires eventName in events && eventName !in banned
    requires ParsersRaiseNoLoop(env) && RankedReferences(env, events, rank)
    requires forall b :: b in banned ==> rank(eventName) < rank(b)
    requires RefersBelow(env, rank, eventName, step)
    ensures !LoopFailure(ResolveStep(env, events, banned, eventName, step))
    decreases |events.Keys - banned|, 0, 0
  {
    if TypeOf(env, step) == Some("event") && env.parseKey("event") !in env.drunkEvents && "event" in step {
      var target := env.getString(step["event"]);
      if target.Some? {
        BannedGrows(events.Keys, banned, eventName);
        AcyclicEventNeverLoops(env, events, rank, target.value, banned + {eventName});
      }
      EventStepReadsReference(env, events, banned, eventName, step);
    } else {
      UnreferencingStepNeverLoops(env, events, banned, eventName, step);
    }
  }

  /** A step that refers to no event fails only with its own messages or a
      parser's. */
  lemma UnreferencingStepNeverLoops(env: Env, events: map<string, Node>, banned: set<string>, eventName: string,
                                    step: map<string, Node>)
    requires eventName in events && eventName !in banned
    requires ParsersRaiseNoLoop(env)
    requires !(TypeOf(env, step) == Some("event") && env.parseKey("event") !in env.drunkEvents && "event" in step)
    ensures !LoopFailure(ResolveStep(env, events, banned, eventName, step))
  {
    LiteralStepsNeverLoop(env, step);
  }

  /** The literal step kinds fail only with their own messages or a parser's. */
  lemma LiteralStepsNeverLoop(env: Env, step: map<string, Node>)
    requires ParsersRaiseNoLoop(env)
    ensures !LoopFailure(ResolveCommand(env, step)) && !LoopFailure(ResolveWait(env, step))
    ensures !LoopFailure(ResolvePotion(env, step)) && !LoopFailure(ResolveTeleport(env, step))
  {
  }

  /** deserialize never reports an infinite loop for a section whose
      references have no cycle. */
  lemma {:induction false} AcyclicSectionNeverLoops(env: Env, children: map<string, Node>, rank: string -> nat,
                                                    order: seq<string>)
    requires ParsersRaiseNoLoop(env) && RankedReferences(env, children, rank)
    ensures !LoopFailure(Deserialized(env, children, order))
    decreases |order|
  {
    if |order| > 0 {
      AcyclicSectionNeverLoops(env, children, rank, order[..|order| - 1]);
      AcyclicEventNeverLoops(env, children, rank, order[|order| - 1], {});
    }
  }

  /** Every nested event of a resolved event is the event its name resolves to
      on its own, from the top level. */
  lemma NestedMatchesIndependentResolution(env: Env, events: map<string, Node>, name: string, banned: set<string>, j: nat)
    requires ResolveEvent(env, events, Some(name), banned).Ok?
    requires j < |ResolveEvent(env, events, Some(name), banned).value.steps|
    requires ResolveEvent(env, events, Some(name), banned).value.steps[j].Nested?
    ensures var nested := ResolveEvent(env, events, Some(name), banned).value.steps[j].event;
            ResolveEvent(env, events, Some(nested.name), {}) == Ok(nested)
  {
    var raw := RawSteps(env, ChildrenMap(events[name])).value;
    NestedStepsResolvable(env, events, banned, name, raw);
    var nested := ResolveEvent(env, events, Some(name), banned).value.steps[j].event;
    EventBannedMonotone(env, events, Some(nested.name), banned + {name}, {});
  }

  lemma {:induction false} NestedStepsResolvable(env: Env, events: map<string, Node>, banned: set<string>, eventName: string,
                                                 raw: seq<map<string, Node>>)
    requires eventName in events && eventName !in banned
    requires ResolveSteps(env, events, banned, eventName, raw).Ok?
    ensures var ss := ResolveSteps(env, events, banned, eventName, raw).value;
            forall j :: 0 <= j < |ss| && ss[j].Nested? ==>
              ResolveEvent(env, events, Some(ss[j].event.name), banned + {eventName}) == Ok(ss[j].event)
    decreases |raw|
  {
    if |raw| > 0 {
      NestedStepsResolvable(env, events, banned, eventName, raw[..|raw| - 1]);
      NestedStepResolvable(env, events, banned, eventName, raw[|raw| - 1]);
    }
  }

  lemma NestedStepResolvable(env: Env, events: map<string, Node>, banned: set<string>, eventName: string,
                             step: map<string, Node>)
    requires eventName in events && eventName !in banned
    requires ResolveStep(env, events, banned, eventName, step).Ok?
    ensures var ss := ResolveStep(env, events, banned, eventName, step).value;
            forall j :: 0 <= j < |ss| && ss[j].Nested? ==>
              ResolveEvent(env, events, Some(ss[j].event.name), banned + {eventName}) == Ok(ss[j].event)
  {
    var stepType := TypeOf(env, step).value;
    if env.parseKey(stepType) in env.drunkEvents || stepType != "event" {
      OnlyEventStepsNest(env, events, banned, eventName, step);
    } else {
      EventStepReadsReference(env, events, banned, eventName, step);
    }
  }
}

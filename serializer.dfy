/** The inverse transform: EventRegistrySerializer.serialize and
    stepToConfigSerializable. */
module Serializer {
  import opened Keys
  import opened ConfigTree
  import opened Text
  import opened Events
  import opened Enumeration
  import Resolver

  /** stepToConfigSerializable: the canonical map of one step. A nested event
      is written as its key only; a builtin as `type` = its key. */
  function StepToConfig(env: Env, step: Step): (n: Node)
    ensures n.Obj? && "type" in n.fields && n.fields["type"].Str?
    ensures step.Builtin? ==> n.fields == map["type" := Str(step.drunkEvent.key.key)]
    ensures !step.Builtin? ==> n.fields["type"].s in Resolver.StepKinds
    ensures step.Nested? ==> n.fields == map["type" := Str("event"), "event" := Str(step.event.key.key)]
    ensures step.Consume? ==> n.fields.Keys == {"type", "alcohol", "toxins"}
    ensures step.Wait? ==> n.fields == map["type" := Str("wait"), "duration" := Str(Decimal(step.ticks) + "t")]
    ensures step.SendCommand? ==> "as" in n.fields && n.fields["as"] == Str(Lower(step.sender))
    ensures step.ConditionalWait? ==> "condition" in n.fields && n.fields["condition"] == Str(Lower(env.conditionName(step.condition)))
  {
    match step
    case ApplyPotionEffect(effect, amplifier, duration) =>
      Obj(map["type" := Str("potion"), "effect" := Str(effect),
              "duration" := Str(env.intervalText(duration)), "amplifier" := Str(env.intervalText(amplifier))])
    case ConditionalWait(condition) =>
      Obj(map["type" := Str("wait"), "condition" := Str(Lower(env.conditionName(condition)))])
    case Consume(alcohol, toxins) =>
      Obj(map["type" := Str("consume"), "alcohol" := Int(alcohol), "toxins" := Int(toxins)])
    case Nested(event) =>
      Obj(map["type" := Str("event"), "event" := Str(event.key.key)])
    case Builtin(drunkEvent) =>
      Obj(map["type" := Str(drunkEvent.key.key)])
    case SendCommand(command, sender) =>
      Obj(map["type" := Str("command"), "as" := Str(Lower(sender)), "command" := Str(command)])
    case Teleport(location) =>
      Obj(map["type" := Str("teleport"), "location" := env.encodeLocation(location)])
    case Wait(ticks) =>
      Obj(map["type" := Str("wait"), "duration" := Str(Decimal(ticks) + "t")])
  }

  /** The map written for one event (see SerializeEventContents). */
  function SerializeEvent(env: Env, e: Event): (n: Node)
    ensures n.Obj? && "steps" in n.fields && n.fields["steps"].Lst?
    ensures |n.fields["steps"].items| == |e.steps|
  {
    var alcohol := if e.alcohol != 0 then map["alcohol" := Int(e.alcohol)] else map[];
    var toxins := if e.toxins != 0 then map["toxins" := Int(e.toxins)] else map[];
    var weight := if e.probabilityWeight != 0 then map["probability-weight" := Int(e.probabilityWeight)] else map[];
    var steps := seq(|e.steps|, i requires 0 <= i < |e.steps| => StepToConfig(env, e.steps[i]));
    Obj(alcohol + toxins + weight + map["steps" := Lst(steps)])
  }

  /** The map written for one event holds each threshold only when it is not
      0, and the steps in order. */
  lemma SerializeEventContents(env: Env, e: Event)
    ensures var n := SerializeEvent(env, e);
            && n.Obj? && n.fields.Keys <= {"alcohol", "toxins", "probability-weight", "steps"}
            && ("alcohol" in n.fields <==> e.alcohol != 0)
            && ("alcohol" in n.fields ==> n.fields["alcohol"] == Int(e.alcohol))
            && ("toxins" in n.fields <==> e.toxins != 0)
            && ("toxins" in n.fields ==> n.fields["toxins"] == Int(e.toxins))
            && ("probability-weight" in n.fields <==> e.probabilityWeight != 0)
            && ("probability-weight" in n.fields ==> n.fields["probability-weight"] == Int(e.probabilityWeight))
            && "steps" in n.fields && n.fields["steps"] == Lst(seq(|e.steps|, i requires 0 <= i < |e.steps| => StepToConfig(env, e.steps[i])))
  {
    var alcohol := if e.alcohol != 0 then map["alcohol" := Int(e.alcohol)] else map[];
    var toxins := if e.toxins != 0 then map["toxins" := Int(e.toxins)] else map[];
    var weight := if e.probabilityWeight != 0 then map["probability-weight" := Int(e.probabilityWeight)] else map[];
    assert alcohol.Keys <= {"alcohol"} && toxins.Keys <= {"toxins"} && weight.Keys <= {"probability-weight"};
  }

  /** serialize: one entry per event, under the name part of its key, in the
      visiting order of the registry (a later event overwrites an earlier one
      with the same name). */
  function Serialized(env: Env, registry: Registry, order: seq<BreweryKey>): (r: map<string, Node>)
    requires forall i :: 0 <= i < |order| ==> order[i] in registry
    ensures forall i :: 0 <= i < |order| ==> registry[order[i]].key.key in r
    decreases |order|
  {
    if |order| == 0 then map[]
    else
      var event := registry[order[|order| - 1]];
      Serialized(env, registry, order[..|order| - 1])[event.key.key := SerializeEvent(env, event)]
  }

  /** serialize writes one entry per name among the visited events. */
  lemma {:induction false} SerializedKeys(env: Env, registry: Registry, order: seq<BreweryKey>)
    requires forall i :: 0 <= i < |order| ==> order[i] in registry
    ensures Serialized(env, registry, order).Keys == set i | 0 <= i < |order| :: registry[order[i]].key.key
    decreases |order|
  {
    if |order| > 0 {
      var init := order[..|order| - 1];
      SerializedKeys(env, registry, init);
      var output := Serialized(env, registry, order);
      forall x | x in output ensures exists i :: 0 <= i < |order| && registry[order[i]].key.key == x {
        if x != registry[order[|order| - 1]].key.key {
          var i :| 0 <= i < |init| && registry[init[i]].key.key == x;
          assert order[i] == init[i];
        }
      }
    }
  }

  /** serialize, with its loop over the events of the registry. */
  method Serialize(env: Env, registry: Registry, order: seq<BreweryKey>) returns (node: Node)
    requires Enumerates(order, registry.Keys)
    ensures node == Obj(Serialized(env, registry, order))
  {
    var output: map<string, Node> := map[];
    var i := 0;
    while i < |order|
      invariant 0 <= i <= |order|
      invariant output == Serialized(env, registry, order[..i])
    {
      var event := registry[order[i]];
      var eventData := SerializeEvent(env, event);
      assert order[..i + 1][..i] == order[..i];
      output := output[event.key.key := eventData];
      i := i + 1;
    }
    assert order[..i] == order;
    node := Obj(output);
  }

  /** When the events have distinct names, each one is written under its name. */
  lemma {:induction false} SerializedWritesEachEvent(env: Env, registry: Registry, order: seq<BreweryKey>, i: nat)
    requires forall j :: 0 <= j < |order| ==> order[j] in registry
    requires i < |order|
    requires forall j :: 0 <= j < |order| && j != i ==> registry[order[j]].key.key != registry[order[i]].key.key
    ensures registry[order[i]].key.key in Serialized(env, registry, order)
    ensures Serialized(env, registry, order)[registry[order[i]].key.key] == SerializeEvent(env, registry[order[i]])
    decreases |order|
  {
    if i < |order| - 1 {
      SerializedWritesEachEvent(env, registry, order[..|order| - 1], i);
    }
  }

  /** When every event is registered under the key its name parses to,
      serialize writes exactly one entry per event, under its name, holding
      its map. */
  lemma SerializedByName(env: Env, registry: Registry, order: seq<BreweryKey>)
    requires Enumerates(order, registry.Keys)
    requires forall k :: k in registry ==> registry[k].key == k && env.parseKey(k.key) == k
    ensures forall x :: x in Serialized(env, registry, order) <==> env.parseKey(x) in registry && env.parseKey(x).key == x
    ensures forall k :: k in registry ==> Serialized(env, registry, order)[k.key] == SerializeEvent(env, registry[k])
  {
    var output := Serialized(env, registry, order);
    SerializedKeys(env, registry, order);
    forall k | k in registry
      ensures output[k.key] == SerializeEvent(env, registry[k])
    {
      var i :| 0 <= i < |order| && order[i] == k;
      forall j | 0 <= j < |order| && j != i
        ensures registry[order[j]].key.key != registry[order[i]].key.key
      {
        assert env.parseKey(order[j].key) == order[j];
      }
      SerializedWritesEachEvent(env, registry, order, i);
    }
    forall x | x in output
      ensures env.parseKey(x) in registry && env.parseKey(x).key == x
    {
      var i :| 0 <= i < |order| && registry[order[i]].key.key == x;
    }
  }
}

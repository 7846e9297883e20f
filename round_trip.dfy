/** Writing a loaded registry back with serialize and loading the result
    again gives the same registry. */
module RoundTrip {
  import opened Failures
  import opened Keys
  import opened ConfigTree
  import opened Text
  import opened Events
  import opened Enumeration
  import opened Resolver
  import opened ResolverFacts
  import opened Serializer

  /** The external codecs read back what serialize writes: plain node
      accessors, builtin events found again under the name part of their key,
      and the condition, wait, interval and location writers inverted by
      their parsers. */
  ghost predicate Canonical(env: Env)
  {
    && PlainAccessors(env)
    && (forall k :: k in env.drunkEvents ==> env.parseKey(env.drunkEvents[k].key.key) == k)
    && (forall c :: env.parseCondition(Lower(env.conditionName(c))) == Ok(c))
    && (forall t: nat :: env.parseWait(Decimal(t) + "t") == Ok(t))
    && (forall iv :: env.decodeInterval(Str(env.intervalText(iv))) == Ok(iv))
    && (forall l :: env.decodeLocation(env.encodeLocation(l)) == Ok(Some(l)))
  }

  /** Each top-level name is the name part of the key it parses to (a plain
      name such as `sad`, not `namespace:sad`): serialize writes an event under
      the name part of its key only. */
  ghost predicate CanonicalNames(env: Env, children: map<string, Node>)
  {
    forall n :: n in children ==> env.parseKey(n).key == n
  }

  /** `written` holds, under each name of `children`, the serialized form of
      the event that name resolves to. */
  ghost predicate WrittenFrom(env: Env, children: map<string, Node>, written: map<string, Node>)
  {
    && written.Keys == children.Keys
    && forall n :: n in children ==>
         && ResolveEvent(env, children, Some(n), {}).Ok?
         && written[n] == SerializeEvent(env, ResolveEvent(env, children, Some(n), {}).value)
  }

  /** The steps that re-read from their own canonical map, given the builtin
      registry and the sender constants. Nested events are handled by the
      recursion of the round trip proof. */
  ghost predicate Rereadable(env: Env, s: Step)
  {
    match s
    case Builtin(d) => env.parseKey(d.key.key) in env.drunkEvents && env.drunkEvents[env.parseKey(d.key.key)] == d
    case Nested(_) => false
    case SendCommand(_, sender) =>
      env.parseKey("command") !in env.drunkEvents && sender in env.senderNames && NoLowerAscii(sender)
    case Wait(_) => env.parseKey("wait") !in env.drunkEvents
    case ConditionalWait(_) => env.parseKey("wait") !in env.drunkEvents
    case ApplyPotionEffect(_, _, _) => env.parseKey("potion") !in env.drunkEvents
    case Consume(_, _) => env.parseKey("consume") !in env.drunkEvents
    case Teleport(_) => env.parseKey("teleport") !in env.drunkEvents
  }

  /** Each of `ss`, written by stepToConfigSerializable, reads back as itself. */
  ghost predicate RereadsEach(env: Env, events: map<string, Node>, banned: set<string>, eventName: string, ss: seq<Step>)
    requires eventName in events && eventName !in banned
  {
    forall j :: 0 <= j < |ss| ==>
      ResolveStep(env, events, banned, eventName, ChildrenMap(StepToConfig(env, ss[j]))) == Ok([ss[j]])
  }

  lemma RereadsEachConcat(env: Env, events: map<string, Node>, banned: set<string>, eventName: string,
                          ss: seq<Step>, more: seq<Step>)
    requires eventName in events && eventName !in banned
    requires RereadsEach(env, events, banned, eventName, ss) && RereadsEach(env, events, banned, eventName, more)
    ensures RereadsEach(env, events, banned, eventName, ss + more)
  {
    forall j | |ss| <= j < |ss| + |more|
      ensures (ss + more)[j] == more[j - |ss|]
    {
    }
  }

  /** stepToConfigSerializable followed by readEventStep gives the step back. */
  lemma StepConfigRereads(env: Env, events: map<string, Node>, banned: set<string>, eventName: string, s: Step)
    requires Canonical(env) && Rereadable(env, s)
    requires eventName in events && eventName !in banned
    ensures ResolveStep(env, events, banned, eventName, ChildrenMap(StepToConfig(env, s))) == Ok([s])
  {
    var step := ChildrenMap(StepToConfig(env, s));
    match s
    case Builtin(d) =>
      assert TypeOf(env, step) == Some(d.key.key);
    case SendCommand(command, sender) =>
      UpperLowerInverse(sender);
      assert SenderOf(env, step) == Some(Lower(sender));
      assert ResolveCommand(env, step) == Ok([s]);
    case Wait(ticks) =>
      var none: seq<Step> := [];
      assert none + [s] == [s];
      assert ResolveWait(env, step) == Ok([s]);
    case ConditionalWait(condition) =>
      var none: seq<Step> := [];
      assert [s] + none == [s];
      assert ResolveWait(env, step) == Ok([s]);
    case ApplyPotionEffect(effect, amplifier, duration) =>
      assert ResolvePotion(env, step) == Ok([s]);
    case Consume(alcohol, toxins) =>
    case Teleport(location) =>
  }

  /** Every step a successful readEventStep produces, other than a nested
      event, re-reads from its canonical map. */
  lemma ResolvedStepRereadable(env: Env, events: map<string, Node>, banned: set<string>, eventName: string,
                               step: map<string, Node>)
    requires Canonical(env)
    requires eventName in events && eventName !in banned
    requires ResolveStep(env, events, banned, eventName, step).Ok?
    ensures var ss := ResolveStep(env, events, banned, eventName, step).value;
            forall j :: 0 <= j < |ss| && !ss[j].Nested? ==> Rereadable(env, ss[j])
  {
    var ss := ResolveStep(env, events, banned, eventName, step).value;
    var stepType := TypeOf(env, step).value;
    if env.parseKey(stepType) !in env.drunkEvents && stepType == "wait" {
      assert forall j :: 0 <= j < |ss| ==> ss[j].Wait? || ss[j].ConditionalWait?;
    }
  }

  /** Serializing the events of `children` and reading the result back
      resolves every event as before, for any banned set. */
  lemma {:induction false} EventRereads(env: Env, children: map<string, Node>, written: map<string, Node>,
                                        name: string, banned: set<string>)
    requires Canonical(env) && CanonicalNames(env, children) && WrittenFrom(env, children, written)
    requires ResolveEvent(env, children, Some(name), banned).Ok?
    ensures ResolveEvent(env, written, Some(name), banned) == ResolveEvent(env, children, Some(name), banned)
    decreases |children.Keys - banned|, 2, 0
  {
    var e := ResolveEvent(env, children, Some(name), banned).value;
    var raw := ResolvedEventParts(env, children, written, name, banned);
    StepsRereads(env, children, written, banned, name, raw);
    WrittenEventRereads(env, written, banned, name, e);
  }

  /** A resolved event is written as its own map, and its raw steps resolve
      to its steps. */
  lemma ResolvedEventParts(env: Env, children: map<string, Node>, written: map<string, Node>,
                           name: string, banned: set<string>) returns (raw: seq<map<string, Node>>)
    requires WrittenFrom(env, children, written)
    requires ResolveEvent(env, children, Some(name), banned).Ok?
    ensures var e := ResolveEvent(env, children, Some(name), banned).value;
            && name in children && name !in banned && name in written
            && written[name] == SerializeEvent(env, e)
            && e.name == name && e.key == env.parseKey(name)
            && ResolveSteps(env, children, banned, name, raw) == Ok(e.steps)
  {
    EventBannedMonotone(env, children, Some(name), banned, {});
    WrittenAt(env, children, written, name);
    raw := ResolvedSteps(env, children, name, banned);
  }

  lemma ResolvedSteps(env: Env, events: map<string, Node>, name: string, banned: set<string>)
    returns (raw: seq<map<string, Node>>)
    requires ResolveEvent(env, events, Some(name), banned).Ok?
    ensures name in events && name !in banned
    ensures ResolveSteps(env, events, banned, name, raw) == Ok(ResolveEvent(env, events, Some(name), banned).value.steps)
  {
    assert TryResolveEvent(env, events, Some(name), banned).Ok?;
    raw := RawSteps(env, ChildrenMap(events[name])).value;
  }

  lemma WrittenAt(env: Env, children: map<string, Node>, written: map<string, Node>, name: string)
    requires WrittenFrom(env, children, written)
    requires name in children
    ensures name in written && written[name] == SerializeEvent(env, ResolveEvent(env, children, Some(name), {}).value)
  {
  }

  /** The map serialize writes for an event reads back as that event, once
      each of its steps reads back. */
  lemma WrittenEventRereads(env: Env, written: map<string, Node>, banned: set<string>, name: string, e: Event)
    requires PlainAccessors(env)
    requires name in written && name !in banned && written[name] == SerializeEvent(env, e)
    requires e.name == name && e.key == env.parseKey(name)
    requires forall j :: 0 <= j < |e.steps| ==>
               ResolveStep(env, written, banned, name, ChildrenMap(StepToConfig(env, e.steps[j]))) == Ok([e.steps[j]])
    ensures ResolveEvent(env, written, Some(name), banned) == Ok(e)
  {
    var data := ChildrenMap(written[name]);
    SerializedEventReads(env, e);
    var again := seq(|e.steps|, i requires 0 <= i < |e.steps| => ChildrenMap(StepToConfig(env, e.steps[i])));
    var parts := seq(|e.steps|, i requires 0 <= i < |e.steps| => [e.steps[i]]);
    StepsAreConcatenation(env, written, banned, name, again, parts);
    FlattenSingletons(e.steps, parts);
    assert TryResolveEvent(env, written, Some(name), banned) == Ok(e);
  }

  /** readWithDefault and the `steps` list read back what serialize wrote,
      an omitted 0 threshold included. */
  lemma SerializedEventReads(env: Env, e: Event)
    requires PlainAccessors(env)
    ensures var data := SerializeEvent(env, e).fields;
            && ReadInt(env, data, "alcohol") == e.alcohol
            && ReadInt(env, data, "toxins") == e.toxins
            && ReadInt(env, data, "probability-weight") == e.probabilityWeight
            && RawSteps(env, data)
               == Ok(seq(|e.steps|, i requires 0 <= i < |e.steps| => ChildrenMap(StepToConfig(env, e.steps[i]))))
  {
    SerializeEventContents(env, e);
    var data := SerializeEvent(env, e).fields;
    var nodes := data["steps"].items;
    assert env.getList(data["steps"]) == Ok(nodes);
    var again := seq(|e.steps|, i requires 0 <= i < |e.steps| => ChildrenMap(StepToConfig(env, e.steps[i])));
    var read := seq(|nodes|, i requires 0 <= i < |nodes| => ChildrenMap(nodes[i]));
    assert forall i :: 0 <= i < |nodes| ==> read[i] == again[i];
    assert read == again;
  }

  lemma {:induction false} StepsRereads(env: Env, children: map<string, Node>, written: map<string, Node>,
                                        banned: set<string>, eventName: string, raw: seq<map<string, Node>>)
    requires Canonical(env) && CanonicalNames(env, children) && WrittenFrom(env, children, written)
    requires eventName in children && eventName !in banned
    requires ResolveSteps(env, children, banned, eventName, raw).Ok?
    ensures var ss := ResolveSteps(env, children, banned, eventName, raw).value;
            RereadsEach(env, written, banned, eventName, ss)
    decreases |children.Keys - banned|, 1, |raw|
  {
    if |raw| > 0 {
      StepsRereads(env, children, written, banned, eventName, raw[..|raw| - 1]);
      StepRereads(env, children, written, banned, eventName, raw[|raw| - 1]);
      var init := ResolveSteps(env, children, banned, eventName, raw[..|raw| - 1]).value;
      var last := ResolveStep(env, children, banned, eventName, raw[|raw| - 1]).value;
      RereadsEachConcat(env, written, banned, eventName, init, last);
    }
  }

  lemma {:induction false} StepRereads(env: Env, children: map<string, Node>, written: map<string, Node>,
                                       banned: set<string>, eventName: string, step: map<string, Node>)
    requires Canonical(env) && CanonicalNames(env, children) && WrittenFrom(env, children, written)
    requires eventName in children && eventName !in banned
    requires ResolveStep(env, children, banned, eventName, step).Ok?
    ensures var ss := ResolveStep(env, children, banned, eventName, step).value;
            RereadsEach(env, written, banned, eventName, ss)
    decreases |children.Keys - banned|, 0, 0
  {
    var ss := ResolveStep(env, children, banned, eventName, step).value;
    var stepType := TypeOf(env, step).value;
    if env.parseKey(stepType) !in env.drunkEvents && stepType == "event" {
      BannedGrows(children.Keys, banned, eventName);
      var target := env.getString(step["event"]).value;
      var nested := ResolveEvent(env, children, Some(target), banned + {eventName});
      assert ResolveStep(env, children, banned, eventName, step) == Ok([Nested(nested.value)]);
      assert target in children;
      assert nested.value.key.key == target;
      EventRereads(env, children, written, target, banned + {eventName});
      NestedStepRereads(env, written, banned, eventName, nested.value);
      assert ss == [Nested(nested.value)];
    } else {
      assert eventName in written;
      LiteralStepRereads(env, children, written, banned, eventName, step);
    }
  }

  /** The steps of a non-nested readEventStep re-read from their canonical maps. */
  lemma LiteralStepRereads(env: Env, children: map<string, Node>, written: map<string, Node>,
                           banned: set<string>, eventName: string, step: map<string, Node>)
    requires Canonical(env)
    requires eventName in children && eventName in written && eventName !in banned
    requires ResolveStep(env, children, banned, eventName, step).Ok?
    requires env.parseKey(TypeOf(env, step).value) in env.drunkEvents || TypeOf(env, step).value != "event"
    ensures var ss := ResolveStep(env, children, banned, eventName, step).value;
            RereadsEach(env, written, banned, eventName, ss)
  {
    var ss := ResolveStep(env, children, banned, eventName, step).value;
    ResolvedStepRereadable(env, children, banned, eventName, step);
    forall j | 0 <= j < |ss|
      ensures ResolveStep(env, written, banned, eventName, ChildrenMap(StepToConfig(env, ss[j]))) == Ok([ss[j]])
    {
      StepConfigRereads(env, written, banned, eventName, ss[j]);
    }
  }

  /** A nested event written as its name reads back as the event that name
      resolves to. */
  lemma NestedStepRereads(env: Env, events: map<string, Node>, banned: set<string>, eventName: string, nested: Event)
    requires PlainAccessors(env) && env.parseKey("event") !in env.drunkEvents
    requires eventName in events && eventName !in banned
    requires nested.key.key == nested.name
    requires ResolveEvent(env, events, Some(nested.name), banned + {eventName}) == Ok(nested)
    ensures RereadsEach(env, events, banned, eventName, [Nested(nested)])
  {
    var step := ChildrenMap(StepToConfig(env, Nested(nested)));
    assert TypeOf(env, step) == Some("event");
    assert env.getString(step["event"]) == Some(nested.name);
    assert ResolveStep(env, events, banned, eventName, step) == Ok([Nested(nested)]);
  }

  /** One singleton part per step concatenates back to the steps. */
  lemma {:induction false} FlattenSingletons(steps: seq<Step>, parts: seq<seq<Step>>)
    requires |parts| == |steps| && forall i :: 0 <= i < |steps| ==> parts[i] == [steps[i]]
    ensures Flatten(parts) == steps
    decreases |steps|
  {
    if |steps| > 0 {
      FlattenSingletons(steps[..|steps| - 1], parts[..|parts| - 1]);
    }
  }

  /** What a successful load registers: under the key of each top-level name,
      the event that name resolves to. */
  lemma {:induction false} LoadedRegistry(env: Env, children: map<string, Node>, order: seq<string>, registry: Registry)
    requires CanonicalNames(env, children)
    requires Enumerates(order, children.Keys) && Deserialized(env, children, order) == Ok(registry)
    ensures forall k :: k in registry ==> k.key in children && env.parseKey(k.key) == k
    ensures forall n :: n in children ==>
              && ResolveEvent(env, children, Some(n), {}).Ok?
              && env.parseKey(n) in registry
              && registry[env.parseKey(n)] == ResolveEvent(env, children, Some(n), {}).value
  {
    DeserializedKeys(env, children, order);
    forall k | k in registry
      ensures k.key in children && env.parseKey(k.key) == k
    {
      var i :| 0 <= i < |order| && env.parseKey(order[i]) == k;
      assert order[i] in children;
    }
    forall n | n in children
      ensures ResolveEvent(env, children, Some(n), {}).Ok?
      ensures env.parseKey(n) in registry && registry[env.parseKey(n)] == ResolveEvent(env, children, Some(n), {}).value
    {
      var i :| 0 <= i < |order| && order[i] == n;
      forall j | 0 <= j < |order| && j != i
        ensures env.parseKey(order[j]) != env.parseKey(order[i])
      {
        assert env.parseKey(order[j]).key == order[j];
      }
      DeserializeRegistersChild(env, children, order, i);
    }
  }

  /** serialize writes each loaded event under its top-level name. */
  lemma {:induction false} SerializedOfLoaded(env: Env, children: map<string, Node>, order: seq<string>,
                                              registry: Registry, written: seq<BreweryKey>)
    requires CanonicalNames(env, children)
    requires Enumerates(order, children.Keys) && Deserialized(env, children, order) == Ok(registry)
    requires Enumerates(written, registry.Keys)
    ensures WrittenFrom(env, children, Serialized(env, registry, written))
  {
    LoadedRegistry(env, children, order, registry);
    var loaded := map n | n in children :: ResolveEvent(env, children, Some(n), {}).value;
    assert loaded.Keys == children.Keys;
    forall n | n in loaded
      ensures loaded[n].key == env.parseKey(n) && env.parseKey(n).key == n
    {
      assert loaded[n] == ResolveEvent(env, children, Some(n), {}).value;
    }
    WrittenUnderNames(env, loaded, registry, written);
    var output := Serialized(env, registry, written);
    forall n | n in children
      ensures output[n] == SerializeEvent(env, ResolveEvent(env, children, Some(n), {}).value)
    {
      assert loaded[n] == ResolveEvent(env, children, Some(n), {}).value;
    }
  }

  /** serialize writes the event loaded for each name under that name. */
  lemma WrittenUnderNames(env: Env, loaded: map<string, Event>, registry: Registry, written: seq<BreweryKey>)
    requires forall n :: n in loaded ==> loaded[n].key == env.parseKey(n) && env.parseKey(n).key == n
    requires forall k :: k in registry ==> k.key in loaded && env.parseKey(k.key) == k
    requires forall n :: n in loaded ==> env.parseKey(n) in registry && registry[env.parseKey(n)] == loaded[n]
    requires Enumerates(written, registry.Keys)
    ensures Serialized(env, registry, written).Keys == loaded.Keys
    ensures forall n :: n in loaded ==> Serialized(env, registry, written)[n] == SerializeEvent(env, loaded[n])
  {
    forall k | k in registry
      ensures registry[k].key == k
    {
      assert registry[k] == loaded[k.key];
    }
    SerializedByName(env, registry, written);
    var output := Serialized(env, registry, written);
    assert forall n :: n in loaded ==> env.parseKey(n) in registry && n in output;
  }

  /** Round trip: loading a configuration, writing the registry with
      serialize (in any order) and loading the written map again (in any
      order) gives the same registry. */
  lemma RoundTripGivesSameRegistry(env: Env, children: map<string, Node>, order: seq<string>, registry: Registry,
                                   written: seq<BreweryKey>, reread: seq<string>)
    requires Canonical(env) && CanonicalNames(env, children)
    requires Enumerates(order, children.Keys) && Deserialized(env, children, order) == Ok(registry)
    requires Enumerates(written, registry.Keys)
    requires Enumerates(reread, Serialized(env, registry, written).Keys)
    ensures Deserialized(env, Serialized(env, registry, written), reread) == Ok(registry)
  {
    var output := Serialized(env, registry, written);
    SerializedOfLoaded(env, children, order, registry, written);
    WrittenRereads(env, children, output);
    ReloadGivesSameRegistry(env, children, output, order, registry, reread);
  }

  /** Every event defined in `children` resolves the same from the written map. */
  lemma WrittenRereads(env: Env, children: map<string, Node>, written: map<string, Node>)
    requires Canonical(env) && CanonicalNames(env, children) && WrittenFrom(env, children, written)
    ensures written.Keys == children.Keys
    ensures forall n :: n in children ==> ResolveEvent(env, written, Some(n), {}) == ResolveEvent(env, children, Some(n), {})
  {
    forall n | n in children
      ensures ResolveEvent(env, written, Some(n), {}) == ResolveEvent(env, children, Some(n), {})
    {
      EventRereads(env, children, written, n, {});
    }
  }

  /** A map under the same names whose events resolve as the loaded ones
      loads to the same registry, in any order. */
  lemma ReloadGivesSameRegistry(env: Env, children: map<string, Node>, written: map<string, Node>, order: seq<string>,
                                registry: Registry, reread: seq<string>)
    requires CanonicalNames(env, children)
    requires Enumerates(order, children.Keys) && Deserialized(env, children, order) == Ok(registry)
    requires written.Keys == children.Keys && Enumerates(reread, written.Keys)
    requires forall n :: n in children ==> ResolveEvent(env, written, Some(n), {}) == ResolveEvent(env, children, Some(n), {})
    ensures Deserialized(env, written, reread) == Ok(registry)
  {
    LoadedRegistry(env, children, order, registry);
    assert forall i :: 0 <= i < |reread| ==> reread[i] in children;
    DeserializeSucceedsIffAllResolve(env, written, reread);
    var again := Deserialized(env, written, reread).value;
    assert CanonicalNames(env, written);
    LoadedRegistry(env, written, reread, again);
    SameRegistries(env, children, written, registry, again);
  }

  /** Two registries keyed by the same names and agreeing under each name
      are equal. */
  lemma SameRegistries(env: Env, children: map<string, Node>, written: map<string, Node>, registry: Registry, again: Registry)
    requires written.Keys == children.Keys
    requires forall k :: k in registry ==> k.key in children && env.parseKey(k.key) == k
    requires forall k :: k in again ==> k.key in written && env.parseKey(k.key) == k
    requires forall n :: n in children ==>
               env.parseKey(n) in registry && env.parseKey(n) in again && registry[env.parseKey(n)] == again[env.parseKey(n)]
    ensures again == registry
  {
    assert forall k :: k in registry ==> k in again && again[k] == registry[k];
  }
}

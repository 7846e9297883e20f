/** The event resolver: EventRegistrySerializer.deserialize, readEvent,
    readEventStep and readWithDefault. The pure functions below are the
    specification; the methods ReadEvent, ReadEventStep, ReadWait and
    Deserialize follow the loops of the Java code and are proved equal to them. */
module Resolver {
  import opened Failures
  import opened ConfigTree
  import opened Text
  import opened Events
  import opened Enumeration

  /** The literal step types, checked after the builtin registry. */
  const StepKinds: set<string> := {"event", "command", "wait", "potion", "consume", "teleport"}

  /** readWithDefault(data, key, ConfigurationNode::getInt, 0). */
  function ReadInt(env: Env, data: map<string, Node>, key: string): (v: int)
    ensures key in data ==> v == env.getInt(data[key])
    ensures key !in data ==> v == 0
  {
    if key in data then env.getInt(data[key]) else 0
  }

  /** The `steps` field as a list of child maps; an absent field is the empty list. */
  function RawSteps(env: Env, data: map<string, Node>): (r: Result<seq<map<string, Node>>>)
    ensures "steps" !in data ==> r == Ok([])
    ensures "steps" in data ==> (r.Ok? <==> env.getList(data["steps"]).Ok?)
    ensures "steps" in data && r.Fail? ==> r.fault == env.getList(data["steps"]).fault
    ensures "steps" in data && r.Ok? ==>
              var nodes := env.getList(data["steps"]).value;
              |r.value| == |nodes| && forall i :: 0 <= i < |nodes| ==> r.value[i] == ChildrenMap(nodes[i])
  {
    if "steps" in data then
      var nodes :- env.getList(data["steps"]);
      Ok(seq(|nodes|, i requires 0 <= i < |nodes| => ChildrenMap(nodes[i])))
    else Ok([])
  }

  /** The `type` of a step node as read by getString; None when absent or null. */
  function TypeOf(env: Env, step: map<string, Node>): (t: Option<string>)
    ensures t.Some? <==> "type" in step && env.getString(step["type"]).Some?
    ensures t.Some? ==> env.getString(step["type"]) == t
  {
    if "type" in step then env.getString(step["type"]) else None
  }

  /** Adding the event being read to the banned set shrinks the set of names
      that may still be entered: the termination measure of the resolver. */
  lemma BannedGrows(names: set<string>, banned: set<string>, name: string)
    requires name in names && name !in banned
    ensures |names - (banned + {name})| < |names - banned|
  {
    assert names - banned == (names - (banned + {name})) + {name};
  }

  /** readEvent: the try block, then the catch that rewraps an
      IllegalArgumentException as a SerializationException. */
  function ResolveEvent(env: Env, events: map<string, Node>, name: Option<string>, banned: set<string>): (r: Result<Event>)
    ensures r.Ok? ==> name.Some? && name.value in events && name.value !in banned
    ensures r.Ok? ==> r.value.name == name.value && r.value.key == env.parseKey(name.value)
    ensures r.Fail? ==> !r.fault.IllegalArgument?
    ensures name.None? ==> r == Fail(Serialization(UndefinedEventName))
    ensures name.Some? && name.value in banned ==> r == Fail(Serialization(InfiniteLoop(banned)))
    ensures name.Some? && name.value !in banned && name.value !in events ==> r == Fail(NullPointer)
    decreases |events.Keys - banned|, 2, 0
  {
    Rethrow(TryResolveEvent(env, events, name, banned))
  }

  /** The try block of readEvent. An undefined name is dereferenced
      (`customEvents.get(eventName).childrenMap()`) and fails with a
      NullPointerException, which the catch block does not intercept. */
  function TryResolveEvent(env: Env, events: map<string, Node>, name: Option<string>, banned: set<string>): (r: Result<Event>)
    ensures r.Ok? ==> name.Some? && name.value in events && name.value !in banned
    ensures r.Ok? ==> r.value.name == name.value && r.value.key == env.parseKey(name.value)
    decreases |events.Keys - banned|, 1, 0
  {
    if name.None? then Fail(IllegalArgument(UndefinedEventName))
    else if name.value in banned then Fail(IllegalArgument(InfiniteLoop(banned)))
    else if name.value !in events then Fail(NullPointer)
    else
      var data := ChildrenMap(events[name.value]);
      var alcohol := ReadInt(env, data, "alcohol");
      var toxins := ReadInt(env, data, "toxins");
      var weight := ReadInt(env, data, "probability-weight");
      var raw :- RawSteps(env, data);
      var steps :- ResolveSteps(env, events, banned, name.value, raw);
      Ok(Event(steps, alcohol, toxins, weight, name.value, env.parseKey(name.value)))
  }

  /** The loop of readEvent: the expansions of the raw steps, concatenated in
      order; the first step that fails decides the failure. */
  function ResolveSteps(env: Env, events: map<string, Node>, banned: set<string>, eventName: string,
                        raw: seq<map<string, Node>>): (r: Result<seq<Step>>)
    requires eventName in events && eventName !in banned
    ensures r.Ok? ==> |r.value| >= |raw|
    decreases |events.Keys - banned|, 0, |raw|
  {
    if |raw| == 0 then Ok([])
    else
      var init :- ResolveSteps(env, events, banned, eventName, raw[..|raw| - 1]);
      var last :- ResolveStep(env, events, banned, eventName, raw[|raw| - 1]);
      Ok(init + last)
  }

  /** readEventStep: dispatch on the mandatory `type`. A key of the builtin
      registry wins over every literal kind; an unknown type fails. */
  function ResolveStep(env: Env, events: map<string, Node>, banned: set<string>, eventName: string,
                       step: map<string, Node>): (r: Result<seq<Step>>)
    requires eventName in events && eventName !in banned
    ensures r.Ok? ==> 1 <= |r.value| <= 2
    ensures TypeOf(env, step).None? ==> r == Fail(IllegalArgument(StepWithoutType))
    ensures TypeOf(env, step).Some? && env.parseKey(TypeOf(env, step).value) in env.drunkEvents ==>
              r == Ok([Builtin(env.drunkEvents[env.parseKey(TypeOf(env, step).value)])])
    ensures (TypeOf(env, step).Some? && env.parseKey(TypeOf(env, step).value) !in env.drunkEvents
             && TypeOf(env, step).value !in StepKinds) ==> r == Fail(IllegalArgument(UnknownStepType))
    ensures TypeOf(env, step) == Some("event") && env.parseKey("event") !in env.drunkEvents && "event" !in step ==>
              r == Fail(IllegalArgument(MissingEventReference))
    ensures TypeOf(env, step) == Some("command") && env.parseKey("command") !in env.drunkEvents ==>
              r == ResolveCommand(env, step)
    ensures TypeOf(env, step) == Some("wait") && env.parseKey("wait") !in env.drunkEvents ==>
              r == ResolveWait(env, step)
    ensures TypeOf(env, step) == Some("potion") && env.parseKey("potion") !in env.drunkEvents ==>
              r == ResolvePotion(env, step)
    ensures TypeOf(env, step) == Some("consume") && env.parseKey("consume") !in env.drunkEvents ==>
              r == Ok([ResolveConsume(env, step)])
    ensures TypeOf(env, step) == Some("teleport") && env.parseKey("teleport") !in env.drunkEvents ==>
              r == ResolveTeleport(env, step)
    decreases |events.Keys - banned|, 0, 0
  {
    match TypeOf(env, step)
    case None => Fail(IllegalArgument(StepWithoutType))
    case Some(stepType) =>
      var k := env.parseKey(stepType);
      if k in env.drunkEvents then Ok([Builtin(env.drunkEvents[k])])
      else if stepType == "event" then
        if "event" !in step then Fail(IllegalArgument(MissingEventReference))
        else
          BannedGrows(events.Keys, banned, eventName);
          var nested :- ResolveEvent(env, events, env.getString(step["event"]), banned + {eventName});
          Ok([Nested(nested)])
      else if stepType == "command" then ResolveCommand(env, step)
      else if stepType == "wait" then ResolveWait(env, step)
      else if stepType == "potion" then ResolvePotion(env, step)
      else if stepType == "consume" then Ok([ResolveConsume(env, step)])
      else if stepType == "teleport" then ResolveTeleport(env, step)
      else Fail(IllegalArgument(UnknownStepType))
  }

  /** The `command` branch. The sender is read first (default "server") and
      upper-cased; a null sender string is dereferenced and fails with a
      NullPointerException; an unknown constant fails in valueOf. */
  function ResolveCommand(env: Env, step: map<string, Node>): (r: Result<seq<Step>>)
    ensures r.Ok? ==> |r.value| == 1 && r.value[0].SendCommand?
    ensures r.Ok? ==> "command" in step && env.getString(step["command"]) == Some(r.value[0].command)
    ensures r.Ok? ==> r.value[0].sender in env.senderNames && NoLowerAscii(r.value[0].sender)
    ensures r.Ok? && "as" !in step ==> r.value[0].sender == "SERVER"
    ensures r.Ok? && "as" in step ==>
              env.getString(step["as"]).Some? && Upper(env.getString(step["as"]).value) == r.value[0].sender
    ensures "command" !in step && SenderOf(env, step).Some? && Upper(SenderOf(env, step).value) in env.senderNames ==>
              r == Fail(IllegalArgument(MissingCommand))
  {
    match SenderOf(env, step)
    case None => Fail(NullPointer)
    case Some(sender) =>
      var constant := Upper(sender);
      if constant !in env.senderNames then Fail(IllegalArgument(UnknownSender(constant)))
      else if "command" !in step then Fail(IllegalArgument(MissingCommand))
      else
        match env.getString(step["command"])
        case None => Fail(IllegalArgument(EmptyCommand))
        case Some(command) => Ok([SendCommand(command, constant)])
  }

  /** readWithDefault(step, "as", ConfigurationNode::getString, "server"). */
  function SenderOf(env: Env, step: map<string, Node>): (s: Option<string>)
    ensures "as" !in step ==> s == Some("server")
    ensures "as" in step ==> s == env.getString(step["as"])
  {
    if "as" in step then env.getString(step["as"]) else Some("server")
  }

  /** The condition half of the `wait` branch: no step when the key is absent. */
  function ConditionPart(env: Env, step: map<string, Node>): (r: Result<seq<Step>>)
    ensures "condition" !in step ==> r == Ok([])
    ensures "condition" in step && env.getString(step["condition"]).None? ==> r == Fail(IllegalArgument(EmptyCondition))
    ensures "condition" in step && env.getString(step["condition"]).Some? ==>
              var parsed := env.parseCondition(env.getString(step["condition"]).value);
              && (r.Ok? <==> parsed.Ok?)
              && (r.Ok? ==> r.value == [ConditionalWait(parsed.value)])
              && (r.Fail? ==> r.fault == parsed.fault)
  {
    if "condition" !in step then Ok([])
    else
      match env.getString(step["condition"])
      case None => Fail(IllegalArgument(EmptyCondition))
      case Some(text) =>
        var condition :- env.parseCondition(text);
        Ok([ConditionalWait(condition)])
  }

  /** The duration half of the `wait` branch: no step when the key is absent. */
  function DurationPart(env: Env, step: map<string, Node>): (r: Result<seq<Step>>)
    ensures "duration" !in step ==> r == Ok([])
    ensures "duration" in step && env.getString(step["duration"]).None? ==> r == Fail(IllegalArgument(EmptyDuration))
    ensures "duration" in step && env.getString(step["duration"]).Some? ==>
              var parsed := env.parseWait(env.getString(step["duration"]).value);
              && (r.Ok? <==> parsed.Ok?)
              && (r.Ok? ==> r.value == [Wait(parsed.value)])
              && (r.Fail? ==> r.fault == parsed.fault)
  {
    if "duration" !in step then Ok([])
    else
      match env.getString(step["duration"])
      case None => Fail(IllegalArgument(EmptyDuration))
      case Some(text) =>
        var ticks :- env.parseWait(text);
        Ok([Wait(ticks)])
  }

  /** The `wait` branch: the condition step, then the duration step, each
      only when its key is present; neither key is an error. */
  function ResolveWait(env: Env, step: map<string, Node>): (r: Result<seq<Step>>)
    ensures r.Ok? ==> |r.value| == (if "condition" in step then 1 else 0) + (if "duration" in step then 1 else 0)
    ensures r.Ok? ==> 1 <= |r.value| <= 2
    ensures r.Ok? && "condition" in step ==> r.value[0].ConditionalWait?
    ensures r.Ok? && "duration" in step ==> r.value[|r.value| - 1].Wait?
    ensures "condition" !in step && "duration" !in step ==> r == Fail(IllegalArgument(NoDurationOrCondition))
  {
    var conditionSteps :- ConditionPart(env, step);
    var durationSteps :- DurationPart(env, step);
    if "duration" !in step && "condition" !in step then Fail(IllegalArgument(NoDurationOrCondition))
    else Ok(conditionSteps + durationSteps)
  }

  /** The `potion` branch: `effect` is required; amplifier defaults to [1, 1]
      and duration to ten seconds at both ends. */
  function ResolvePotion(env: Env, step: map<string, Node>): (r: Result<seq<Step>>)
    ensures "effect" !in step ==> r == Fail(IllegalArgument(MissingEffect))
    ensures r.Ok? ==> |r.value| == 1 && r.value[0].ApplyPotionEffect?
    ensures r.Ok? ==> "effect" in step && env.getString(step["effect"]) == Some(r.value[0].effect)
    ensures r.Ok? && "amplifier" !in step ==> r.value[0].amplifier == Interval(1, 1)
    ensures r.Ok? && "amplifier" in step ==> env.decodeInterval(step["amplifier"]) == Ok(r.value[0].amplifier)
    ensures r.Ok? && "duration" !in step ==> r.value[0].duration == Interval(10 * env.second, 10 * env.second)
    ensures r.Ok? && "duration" in step ==> env.decodeInterval(step["duration"]) == Ok(r.value[0].duration)
  {
    if "effect" !in step then Fail(IllegalArgument(MissingEffect))
    else
      match env.getString(step["effect"])
      case None => Fail(IllegalArgument(EmptyEffect))
      case Some(effect) =>
        var amplifier :- if "amplifier" in step then env.decodeInterval(step["amplifier"]) else Ok(Interval(1, 1));
        var duration :- if "duration" in step then env.decodeInterval(step["duration"])
                        else Ok(Interval(10 * env.second, 10 * env.second));
        Ok([ApplyPotionEffect(effect, amplifier, duration)])
  }

  /** The `consume` branch: both amounts default to 0. */
  function ResolveConsume(env: Env, step: map<string, Node>): (s: Step)
    ensures s.Consume?
    ensures "alcohol" !in step ==> s.alcohol == 0
    ensures "toxins" !in step ==> s.toxins == 0
    ensures "alcohol" in step ==> s.alcohol == env.getInt(step["alcohol"])
    ensures "toxins" in step ==> s.toxins == env.getInt(step["toxins"])
  {
    Consume(ReadInt(env, step, "alcohol"), ReadInt(env, step, "toxins"))
  }

  /** The `teleport` branch: `location` is required and must not decode to null. */
  function ResolveTeleport(env: Env, step: map<string, Node>): (r: Result<seq<Step>>)
    ensures "location" !in step ==> r == Fail(IllegalArgument(MissingLocation))
    ensures r.Ok? <==> "location" in step && env.decodeLocation(step["location"]).Ok?
                       && env.decodeLocation(step["location"]).value.Some?
    ensures r.Ok? ==> r.value == [Teleport(env.decodeLocation(step["location"]).value.value)]
  {
    if "location" !in step then Fail(IllegalArgument(MissingLocation))
    else
      var location :- env.decodeLocation(step["location"]);
      if location.None? then Fail(IllegalArgument(EmptyLocation))
      else Ok([Teleport(location.value)])
  }

  /** deserialize: every top-level child, read with an empty banned set and
      registered under its key, in the visiting order of the children map. */
  function Deserialized(env: Env, children: map<string, Node>, order: seq<string>): (r: Result<Registry>)
    ensures r.Ok? ==> forall k :: k in r.value ==> r.value[k].key == k && r.value[k].key == env.parseKey(r.value[k].name)
    decreases |order|
  {
    if |order| == 0 then Ok(map[])
    else
      var registry :- Deserialized(env, children, order[..|order| - 1]);
      var event :- ResolveEvent(env, children, Some(order[|order| - 1]), {});
      Ok(registry[event.key := event])
  }

  /** A failing prefix decides the outcome of the whole step list. */
  lemma {:induction false} FailingPrefixDecides(env: Env, events: map<string, Node>, banned: set<string>, eventName: string,
                                                raw: seq<map<string, Node>>, j: nat)
    requires eventName in events && eventName !in banned
    requires j <= |raw|
    requires ResolveSteps(env, events, banned, eventName, raw[..j]).Fail?
    ensures ResolveSteps(env, events, banned, eventName, raw) == ResolveSteps(env, events, banned, eventName, raw[..j])
    decreases |raw|
  {
    if j < |raw| {
      assert raw[..|raw| - 1][..j] == raw[..j];
      FailingPrefixDecides(env, events, banned, eventName, raw[..|raw| - 1], j);
    } else {
      assert raw[..j] == raw;
    }
  }

  /** readEvent, with its catch block. */
  method ReadEvent(env: Env, events: map<string, Node>, name: Option<string>, banned: set<string>)
    returns (r: Result<Event>)
    ensures r == ResolveEvent(env, events, name, banned)
    decreases |events.Keys - banned|, 2, 0
  {
    var attempt := TryReadEvent(env, events, name, banned);
    r := Rethrow(attempt);
  }

  /** The try block of readEvent: the thresholds, then the step loop that
      appends each step's expansion to `eventSteps`. */
  method TryReadEvent(env: Env, events: map<string, Node>, name: Option<string>, banned: set<string>)
    returns (r: Result<Event>)
    ensures r == TryResolveEvent(env, events, name, banned)
    decreases |events.Keys - banned|, 1, 0
  {
    if name.None? {
      return Fail(IllegalArgument(UndefinedEventName));
    }
    var eventName := name.value;
    if eventName in banned {
      return Fail(IllegalArgument(InfiniteLoop(banned)));
    }
    if eventName !in events {
      return Fail(NullPointer);
    }
    var data := ChildrenMap(events[eventName]);
    var alcohol := ReadInt(env, data, "alcohol");
    var toxins := ReadInt(env, data, "toxins");
    var weight := ReadInt(env, data, "probability-weight");
    var rawSteps := RawSteps(env, data);
    if rawSteps.Fail? {
      return Fail(rawSteps.fault);
    }
    var raw := rawSteps.value;
    var eventSteps: seq<Step> := [];
    var i := 0;
    while i < |raw|
      invariant 0 <= i <= |raw|
      invariant ResolveSteps(env, events, banned, eventName, raw[..i]) == Ok(eventSteps)
    {
      var expansion := ReadEventStep(env, events, banned, eventName, raw[i]);
      assert raw[..i + 1][..i] == raw[..i];
      if expansion.Fail? {
        FailingPrefixDecides(env, events, banned, eventName, raw, i + 1);
        return Fail(expansion.fault);
      }
      eventSteps := eventSteps + expansion.value;
      i := i + 1;
    }
    assert raw[..i] == raw;
    r := Ok(Event(eventSteps, alcohol, toxins, weight, eventName, env.parseKey(eventName)));
  }

  /** readEventStep. */
  method ReadEventStep(env: Env, events: map<string, Node>, banned: set<string>, eventName: string,
                       step: map<string, Node>) returns (r: Result<seq<Step>>)
    requires eventName in events && eventName !in banned
    ensures r == ResolveStep(env, events, banned, eventName, step)
    decreases |events.Keys - banned|, 0, 0
  {
    if "type" !in step {
      return Fail(IllegalArgument(StepWithoutType));
    }
    var typeString := env.getString(step["type"]);
    if typeString.None? {
      return Fail(IllegalArgument(StepWithoutType));
    }
    var stepType := typeString.value;
    var k := env.parseKey(stepType);
    if k in env.drunkEvents {
      r := Ok([Builtin(env.drunkEvents[k])]);
    } else if stepType == "event" {
      if "event" !in step {
        return Fail(IllegalArgument(MissingEventReference));
      }
      BannedGrows(events.Keys, banned, eventName);
      var nested := ReadEvent(env, events, env.getString(step["event"]), banned + {eventName});
      if nested.Fail? {
        return Fail(nested.fault);
      }
      r := Ok([Nested(nested.value)]);
    } else if stepType == "command" {
      r := ResolveCommand(env, step);
    } else if stepType == "wait" {
      r := ReadWait(env, step);
    } else if stepType == "potion" {
      r := ResolvePotion(env, step);
    } else if stepType == "consume" {
      r := Ok([ResolveConsume(env, step)]);
    } else if stepType == "teleport" {
      r := ResolveTeleport(env, step);
    } else {
      r := Fail(IllegalArgument(UnknownStepType));
    }
  }

  /** The `wait` branch of readEventStep, which builds its output list one
      step at a time. */
  method ReadWait(env: Env, step: map<string, Node>) returns (r: Result<seq<Step>>)
    ensures r == ResolveWait(env, step)
  {
    var output: seq<Step> := [];
    if "condition" in step {
      var condition := env.getString(step["condition"]);
      if condition.None? {
        return Fail(IllegalArgument(EmptyCondition));
      }
      var parsed := env.parseCondition(condition.value);
      if parsed.Fail? {
        return Fail(parsed.fault);
      }
      output := output + [ConditionalWait(parsed.value)];
      assert output == [ConditionalWait(parsed.value)];
    }
    assert ConditionPart(env, step) == Ok(output);
    ghost var conditionSteps := output;
    if "duration" in step {
      var duration := env.getString(step["duration"]);
      if duration.None? {
        return Fail(IllegalArgument(EmptyDuration));
      }
      var parsed := env.parseWait(duration.value);
      if parsed.Fail? {
        return Fail(parsed.fault);
      }
      output := output + [Wait(parsed.value)];
    }
    assert output == conditionSteps + DurationPart(env, step).value;
    if !("duration" in step || "condition" in step) {
      return Fail(IllegalArgument(NoDurationOrCondition));
    }
    r := Ok(output);
  }

  /** deserialize: registers the event read for each top-level child, visiting
      the children in `order`, the iteration order of the children map. */
  method Deserialize(env: Env, root: Node, order: seq<string>) returns (r: Result<Registry>)
    requires Enumerates(order, ChildrenMap(root).Keys)
    ensures r == Deserialized(env, ChildrenMap(root), order)
  {
    var children := ChildrenMap(root);
    var output: Registry := map[];
    var i := 0;
    while i < |order|
      invariant 0 <= i <= |order|
      invariant Deserialized(env, children, order[..i]) == Ok(output)
    {
      var event := ReadEvent(env, children, Some(order[i]), {});
      assert order[..i + 1][..i] == order[..i];
      if event.Fail? {
        DeserializeFailingPrefix(env, children, order, i + 1);
        return Fail(event.fault);
      }
      output := output[event.value.key := event.value];
      i := i + 1;
    }
    assert order[..i] == order;
    r := Ok(output);
  }

  /** Once an event fails to load, no registry is produced. */
  lemma {:induction false} DeserializeFailingPrefix(env: Env, children: map<string, Node>, order: seq<string>, j: nat)
    requires j <= |order|
    requires Deserialized(env, children, order[..j]).Fail?
    ensures Deserialized(env, children, order) == Deserialized(env, children, order[..j])
    decreases |order|
  {
    if j < |order| {
      assert order[..|order| - 1][..j] == order[..j];
      DeserializeFailingPrefix(env, children, order[..|order| - 1], j);
    } else {
      assert order[..j] == order;
    }
  }
}

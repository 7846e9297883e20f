/** Small configurations and what the resolver makes of them. */
module ResolverScenarios {
  import opened Failures
  import opened ConfigTree
  import opened Events
  import opened Resolver

  /** The raw steps read from a `steps` list of map nodes. */
  lemma RawStepsOfList(env: Env, data: map<string, Node>, nodes: seq<Node>, steps: seq<map<string, Node>>)
    requires PlainAccessors(env)
    requires "steps" in data && data["steps"] == Lst(nodes)
    requires |nodes| == |steps| && forall i :: 0 <= i < |nodes| ==> nodes[i] == Obj(steps[i])
    ensures RawSteps(env, data) == Ok(steps)
  {
    assert env.getList(data["steps"]) == Ok(nodes);
    var raw := seq(|nodes|, i requires 0 <= i < |nodes| => ChildrenMap(nodes[i]));
    assert RawSteps(env, data) == Ok(raw);
    assert forall i :: 0 <= i < |raw| ==> raw[i] == steps[i];
    assert raw == steps;
  }

  function EventStep(target: string): Node
  {
    Obj(map["type" := Str("event"), "event" := Str(target)])
  }

  /** `loop: {steps: [{type: event, event: loop}]}` fails: the nested call sees
      `loop` in its banned set. */
  lemma SelfReferenceFails(env: Env)
    requires PlainAccessors(env)
    requires env.parseKey("event") !in env.drunkEvents
    ensures var events := map["loop" := Obj(map["steps" := Lst([EventStep("loop")])])];
            ResolveEvent(env, events, Some("loop"), {}) == Fail(Serialization(InfiniteLoop({"loop"})))
  {
    var events := map["loop" := Obj(map["steps" := Lst([EventStep("loop")])])];
    var step := ChildrenMap(EventStep("loop"));
    RawStepsOfList(env, ChildrenMap(events["loop"]), [EventStep("loop")], [step]);
    var none: set<string> := {};
    assert none + {"loop"} == {"loop"};
    assert env.getString(step["event"]) == Some("loop");
    assert ResolveEvent(env, events, Some("loop"), {"loop"}) == Fail(Serialization(InfiniteLoop({"loop"})));
    assert ResolveStep(env, events, {}, "loop", step) == Fail(Serialization(InfiniteLoop({"loop"})));
    var one: seq<map<string, Node>> := [step];
    assert one[..0] == [];
    assert ResolveSteps(env, events, {}, "loop", [step]) == Fail(Serialization(InfiniteLoop({"loop"})));
  }

  /** A refers to B and B to A: reading A fails, and the error names both. */
  lemma MutualReferenceFails(env: Env)
    requires PlainAccessors(env)
    requires env.parseKey("event") !in env.drunkEvents
    ensures var events := map["A" := Obj(map["steps" := Lst([EventStep("B")])]),
                              "B" := Obj(map["steps" := Lst([EventStep("A")])])];
            ResolveEvent(env, events, Some("A"), {}) == Fail(Serialization(InfiniteLoop({"A", "B"})))
  {
    var events := map["A" := Obj(map["steps" := Lst([EventStep("B")])]),
                      "B" := Obj(map["steps" := Lst([EventStep("A")])])];
    var toA := ChildrenMap(EventStep("A"));
    var toB := ChildrenMap(EventStep("B"));
    var fault := Serialization(InfiniteLoop({"A", "B"}));
    var loop: Result<Event> := Fail(fault);
    assert [toA][..0] == [] && [toB][..0] == [];
    assert ResolveEvent(env, events, Some("A"), {"A", "B"}) == loop;
    RawStepsOfList(env, ChildrenMap(events["B"]), [EventStep("A")], [toA]);
    assert {"A"} + {"B"} == {"A", "B"};
    assert ResolveStep(env, events, {"A"}, "B", toA) == Fail(fault);
    assert ResolveSteps(env, events, {"A"}, "B", [toA]) == Fail(fault);
    assert ResolveEvent(env, events, Some("B"), {"A"}) == loop;
    RawStepsOfList(env, ChildrenMap(events["A"]), [EventStep("B")], [toB]);
    var none: set<string> := {};
    assert none + {"A"} == {"A"};
    assert ResolveStep(env, events, {}, "A", toB) == Fail(fault);
    assert ResolveSteps(env, events, {}, "A", [toB]) == Fail(fault);
  }

  /** A step of type "bogus" makes the whole event fail with "Unknown step type". */
  lemma BogusTypeFails(env: Env)
    requires PlainAccessors(env)
    requires env.parseKey("bogus") !in env.drunkEvents
    ensures var events := map["e" := Obj(map["steps" := Lst([Obj(map["type" := Str("bogus")])])])];
            ResolveEvent(env, events, Some("e"), {}) == Fail(Serialization(UnknownStepType))
  {
    var events := map["e" := Obj(map["steps" := Lst([Obj(map["type" := Str("bogus")])])])];
    var step := map["type" := Str("bogus")];
    RawStepsOfList(env, ChildrenMap(events["e"]), [Obj(step)], [step]);
    var one: seq<map<string, Node>> := [step];
    assert one[..0] == [];
    assert ResolveSteps(env, events, {}, "e", [step]) == Fail(IllegalArgument(UnknownStepType));
  }

  /** `sad: {alcohol: 5, steps: [{type: command, command: "say hi"},
      {type: wait, duration: "20t"}]}` gives one event with threshold 5 whose
      steps are the server command, then a 20-tick wait. */
  lemma SadScenario(env: Env)
    requires PlainAccessors(env)
    requires env.parseKey("command") !in env.drunkEvents && env.parseKey("wait") !in env.drunkEvents
    requires "SERVER" in env.senderNames
    requires env.parseWait("20t") == Ok(20)
    ensures var events := map["sad" := Obj(map[
                "alcohol" := Int(5),
                "steps" := Lst([Obj(SayHi()), Obj(TwentyTicks())])])];
            ResolveEvent(env, events, Some("sad"), {})
            == Ok(Event([SendCommand("say hi", "SERVER"), Wait(20)], 5, 0, 0, "sad", env.parseKey("sad")))
  {
    var command, wait := SayHi(), TwentyTicks();
    var events := map["sad" := Obj(map["alcohol" := Int(5), "steps" := Lst([Obj(command), Obj(wait)])])];
    RawStepsOfList(env, ChildrenMap(events["sad"]), [Obj(command), Obj(wait)], [command, wait]);
    SadSteps(env, events);
    ReadsAs(env, events, "sad", [command, wait], [SendCommand("say hi", "SERVER"), Wait(20)]);
    assert ReadInt(env, ChildrenMap(events["sad"]), "alcohol") == 5;
  }

  /** An event whose raw steps read to `steps` reads as the event with those
      steps and the thresholds of its map. */
  lemma ReadsAs(env: Env, events: map<string, Node>, name: string, raw: seq<map<string, Node>>, steps: seq<Step>)
    requires name in events
    requires RawSteps(env, ChildrenMap(events[name])) == Ok(raw)
    requires ResolveSteps(env, events, {}, name, raw) == Ok(steps)
    ensures var data := ChildrenMap(events[name]);
            ResolveEvent(env, events, Some(name), {})
            == Ok(Event(steps, ReadInt(env, data, "alcohol"), ReadInt(env, data, "toxins"),
                        ReadInt(env, data, "probability-weight"), name, env.parseKey(name)))
  {
  }

  /** The two steps of `sad`, in order. */
  lemma SadSteps(env: Env, events: map<string, Node>)
    requires "sad" in events
    requires PlainAccessors(env)
    requires env.parseKey("command") !in env.drunkEvents && env.parseKey("wait") !in env.drunkEvents
    requires "SERVER" in env.senderNames
    requires env.parseWait("20t") == Ok(20)
    ensures ResolveSteps(env, events, {}, "sad", [SayHi(), TwentyTicks()]) == Ok([SendCommand("say hi", "SERVER"), Wait(20)])
  {
    var command, wait := SayHi(), TwentyTicks();
    SayHiStep(env, events);
    TwentyTicksStep(env, events);
    var two: seq<map<string, Node>> := [command, wait];
    assert two[..1] == [command] && two[..1][..0] == [];
    var none: seq<Step> := [];
    assert ResolveSteps(env, events, {}, "sad", []) == Ok(none);
    assert none + [SendCommand("say hi", "SERVER")] == [SendCommand("say hi", "SERVER")];
    assert ResolveSteps(env, events, {}, "sad", two[..1]) == Ok([SendCommand("say hi", "SERVER")]);
    assert [SendCommand("say hi", "SERVER")] + [Wait(20)] == [SendCommand("say hi", "SERVER"), Wait(20)];
  }

  function SayHi(): map<string, Node>
  {
    map["type" := Str("command"), "command" := Str("say hi")]
  }

  function TwentyTicks(): map<string, Node>
  {
    map["type" := Str("wait"), "duration" := Str("20t")]
  }

  lemma SayHiStep(env: Env, events: map<string, Node>)
    requires "sad" in events
    requires PlainAccessors(env)
    requires env.parseKey("command") !in env.drunkEvents
    requires "SERVER" in env.senderNames
    ensures ResolveStep(env, events, {}, "sad", SayHi()) == Ok([SendCommand("say hi", "SERVER")])
  {
    assert Text.Upper("server") == "SERVER";
    assert ResolveCommand(env, SayHi()) == Ok([SendCommand("say hi", "SERVER")]);
  }

  lemma TwentyTicksStep(env: Env, events: map<string, Node>)
    requires "sad" in events
    requires PlainAccessors(env)
    requires env.parseKey("wait") !in env.drunkEvents
    requires env.parseWait("20t") == Ok(20)
    ensures ResolveStep(env, events, {}, "sad", TwentyTicks()) == Ok([Wait(20)])
  {
    var none: seq<Step> := [];
    assert none + [Wait(20)] == [Wait(20)];
    assert ResolveWait(env, TwentyTicks()) == Ok([Wait(20)]);
  }
}

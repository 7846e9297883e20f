# Custom event loading and structure meta normalisation, in Dafny

This project models two parts of TheBrewingProject (Folia fork), a Minecraft brewing plugin.

**The custom event serializer** is `EventRegistrySerializer`. It reads the `events` section of the configuration into a registry of custom drunk events, and writes a registry back.

Each top-level child of the section is one event. An event has:

- three integer thresholds (`alcohol`, `toxins`, `probability-weight`), each 0 when absent;
- a list of steps.

Each step has a `type`:

- a builtin drunk event key, looked up first;
- `event`, a reference to another custom event, read recursively with a banned set that stops cycles;
- `command`, `wait`, `potion`, `consume` or `teleport`.

Any other type is an error. Failures are the Java exceptions as values: readEvent rewraps an `IllegalArgumentException` as a `SerializationException`, and a `NullPointerException` escapes. Writing is the inverse: `serialize` and `stepToConfigSerializable`.

**The structure meta normaliser** is `StructureJsonFormatValidator.validate`. It takes a parsed structure JSON document and does the following:

1. It reads the `meta` object and decodes each member with the registered structure meta of that name. Unknown names and rejected values are dropped. A null value or a repeated meta throws.
2. It requires a `type` meta holding a structure type.
3. It fills in the defaults of the type's mandatory metas.
4. It writes a new `meta` object. That object holds `type`, written from the original decoded value, and each mandatory meta after validation; any other meta is dropped.

## Layout

| file | module | contents |
|---|---|---|
| failures.dfy | Failures | Option, exception reasons and classes, Result, the readEvent catch block |
| keys.dfy | Keys | BreweryKey |
| tree.dfy | ConfigTree | configuration nodes and `childrenMap` |
| text.dfy | Text | ASCII case mapping under `Locale.ROOT`, decimal rendering |
| enumeration.dfy | Enumeration | HashMap iteration orders as sequences |
| events.dfy | Events | steps, events, the registry, the external collaborators (`Env`) |
| resolver.dfy | Resolver | deserialize, readEvent, readEventStep, readWithDefault: specification functions and the imperative methods proved equal to them |
| resolver_facts.dfy | ResolverFacts | properties of loading |
| scenarios.dfy | ResolverScenarios | concrete configurations and their outcomes |
| serializer.dfy | Serializer | serialize and stepToConfigSerializable |
| round_trip.dfy | RoundTrip | load, write, load again gives the same registry |
| structure_meta.dfy | StructureMeta | validate and `get`: the stream as functions, the two loops as methods |
| structure_meta_facts.dfy | StructureMetaFacts | properties of the normaliser |

## Modelling principles

**Loops become methods; the stream pipeline stays functional.** The loops of the Java code are methods with loop invariants:

- ReadEvent and TryReadEvent: the step loop of readEvent;
- ReadWait: the output list of the `wait` branch;
- Deserialize: the deserialize loop;
- Serialize: the serialize loop;
- FillMandatory: the computeIfAbsent loop;
- Reformat: the reformat loop.

Each method is proved equal to a specification function. The properties are proved about those functions. The stream pipeline of validate is a function.

**Map iteration order is a parameter.** Java `HashMap` iteration order is unspecified. Each loop over a map therefore takes its visiting order as a sequence that enumerates the keys. The theorems hold for every such order.

**External code is a parameter.** The collaborators outside the core are fields of `Events.Env` and `StructureMeta.MetaEnv`. They are:

- `BreweryKey.parse`;
- the `DRUNK_EVENT` and `STRUCTURE_META` registries;
- the `CommandSenderType` constants;
- Configurate's node accessors;
- `ConditionalWaitStep.parse` and `WaitStep.parse`;
- Interval and location codecs;
- the meta deserializers, validators and defaults.

The types of these fields carry some assumptions of their own. Anything else a lemma needs of them is stated in its `requires`. The assumptions are:

- `BreweryKey.parse` is a total function that never throws (lines 49 of the validator, 98 and 109 of the serializer);
- `WaitStep.parse` returns a non-negative tick count or a failure;
- a meta deserializer returns a value or null, throws IllegalArgumentException, or throws some other exception (`Decoded`);
- a validator and a default are total and never throw.

## Model

| member | source | states |
|---|---|---|
| Failures.Rethrow | core/src/main/java/dev/jsinco/brewery/configuration/serializers/EventRegistrySerializer.java:99-102 | An IllegalArgumentException becomes a SerializationException with the same reason; success and other exceptions pass unchanged; no IllegalArgumentException escapes |
| Enumeration.Enumerate | bukkit/src/main/java/dev/jsinco/brewery/bukkit/structure/StructureJsonFormatValidator.java:71 | Iteration over a hash map visits every key exactly once |
| Text.Upper | core/src/main/java/dev/jsinco/brewery/configuration/serializers/EventRegistrySerializer.java:117 | Locale.ROOT upper-casing keeps the length and maps each ASCII letter |
| Text.Lower | core/src/main/java/dev/jsinco/brewery/configuration/serializers/EventRegistrySerializer.java:188-192 | Locale.ROOT lower-casing keeps the length and maps each ASCII letter |
| Text.UpperHasNoLower | core/src/main/java/dev/jsinco/brewery/configuration/serializers/EventRegistrySerializer.java:117 | An upper-cased sender name has no lower-case letter |
| Text.UpperLowerInverse | core/src/main/java/dev/jsinco/brewery/configuration/serializers/EventRegistrySerializer.java:188-192 | Upper-casing the lower-cased name of a sender constant gives back the constant |
| Text.Decimal | core/src/main/java/dev/jsinco/brewery/configuration/serializers/EventRegistrySerializer.java:197-198 | The tick count is written as a non-empty string of digits |
| Text.DecimalRoundTrip | core/src/main/java/dev/jsinco/brewery/configuration/serializers/EventRegistrySerializer.java:197-198 | The digits written for a tick count denote that count |
| Resolver.BannedGrows | core/src/main/java/dev/jsinco/brewery/configuration/serializers/EventRegistrySerializer.java:114 | Every nested read adds the current event to the banned set, so the names still allowed strictly decrease (readEvent terminates) |
| Resolver.ResolveEvent | core/src/main/java/dev/jsinco/brewery/configuration/serializers/EventRegistrySerializer.java:76-103 | Undefined name gives "Undefined event name", a banned name the infinite-loop error naming the banned set, a name missing from the section a NullPointerException; a success carries the name and its parsed key; no IllegalArgumentException escapes |
| Resolver.ReadInt | core/src/main/java/dev/jsinco/brewery/configuration/serializers/EventRegistrySerializer.java:72-74 | readWithDefault with getInt: getInt of the node when the key is present, 0 otherwise |
| Resolver.RawSteps | core/src/main/java/dev/jsinco/brewery/configuration/serializers/EventRegistrySerializer.java:87-91 | No `steps` key gives an empty list; otherwise succeeds exactly when getList does, with the child map of each listed node in order, or fails with getList's exception |
| Resolver.Deserialized | core/src/main/java/dev/jsinco/brewery/configuration/serializers/EventRegistrySerializer.java:40-47 | Every registered event sits under its own key, which is the parsed key of its name |
| Resolver.TryResolveEvent | core/src/main/java/dev/jsinco/brewery/configuration/serializers/EventRegistrySerializer.java:77-98 | A successful read is of a defined, non-banned name and records that name and its parsed key |
| Resolver.ResolveSteps | core/src/main/java/dev/jsinco/brewery/configuration/serializers/EventRegistrySerializer.java:93-96 | Every raw step contributes at least one step |
| Resolver.ResolveStep | core/src/main/java/dev/jsinco/brewery/configuration/serializers/EventRegistrySerializer.java:105-162 | A missing or null type fails with "Step has to have a type"; a builtin key wins over every literal type; an unknown type fails with "Unknown step type"; an `event` step without an `event` key fails with "Event step has to have a defined event"; an unshadowed `command`, `wait`, `potion`, `consume` or `teleport` type gives exactly the result of its branch; 1 or 2 steps per raw step |
| Resolver.TypeOf | core/src/main/java/dev/jsinco/brewery/configuration/serializers/EventRegistrySerializer.java:106-108 | A type exactly when the `type` key is present and its string is non-null, and then that string |
| Resolver.SenderOf | core/src/main/java/dev/jsinco/brewery/configuration/serializers/EventRegistrySerializer.java:116 | The `as` string when the key is present, "server" otherwise |
| Resolver.ConditionPart | core/src/main/java/dev/jsinco/brewery/configuration/serializers/EventRegistrySerializer.java:125-129 | No `condition` key gives no step; a null string fails with "Condition can not be empty"; otherwise succeeds exactly when ConditionalWaitStep.parse does, with one conditional wait, or fails with its exception |
| Resolver.DurationPart | core/src/main/java/dev/jsinco/brewery/configuration/serializers/EventRegistrySerializer.java:130-134 | The same for `duration`, "Duration can not be empty" and WaitStep.parse, giving one timed wait |
| Resolver.ResolveCommand | core/src/main/java/dev/jsinco/brewery/configuration/serializers/EventRegistrySerializer.java:115-122 | The command is the node's string; the sender is the upper-cased `as` value, "SERVER" by default, and a known constant; a missing command with a valid sender fails with the missing-command error |
| Resolver.ResolveWait | core/src/main/java/dev/jsinco/brewery/configuration/serializers/EventRegistrySerializer.java:123-136 | One step per present key, the condition step first and the duration step last; neither key fails with "Expected duration or condition to be specified" |
| Resolver.ResolvePotion | core/src/main/java/dev/jsinco/brewery/configuration/serializers/EventRegistrySerializer.java:137-143 | effect is required and is the node's string; amplifier defaults to [1, 1] and duration to 10 seconds at both ends, otherwise the decoded intervals |
| Resolver.ResolveConsume | core/src/main/java/dev/jsinco/brewery/configuration/serializers/EventRegistrySerializer.java:144-153 | alcohol and toxins are read with getInt when present and 0 otherwise |
| Resolver.ResolveTeleport | core/src/main/java/dev/jsinco/brewery/configuration/serializers/EventRegistrySerializer.java:154-159 | Succeeds exactly when a location is present and decodes to a non-null supplier, giving that supplier; a missing location fails with "Expected a location" |
| Resolver.FailingPrefixDecides | core/src/main/java/dev/jsinco/brewery/configuration/serializers/EventRegistrySerializer.java:94-96 | Once a step fails, the rest of the list does not change the outcome |
| Resolver.ReadEvent | core/src/main/java/dev/jsinco/brewery/configuration/serializers/EventRegistrySerializer.java:76-103 | The method equals ResolveEvent |
| Resolver.TryReadEvent | core/src/main/java/dev/jsinco/brewery/configuration/serializers/EventRegistrySerializer.java:77-98 | The loop appending each step's expansion to eventSteps equals TryResolveEvent |
| Resolver.ReadEventStep | core/src/main/java/dev/jsinco/brewery/configuration/serializers/EventRegistrySerializer.java:105-162 | The method equals ResolveStep |
| Resolver.ReadWait | core/src/main/java/dev/jsinco/brewery/configuration/serializers/EventRegistrySerializer.java:123-136 | The method building the wait output list equals ResolveWait |
| Resolver.Deserialize | core/src/main/java/dev/jsinco/brewery/configuration/serializers/EventRegistrySerializer.java:40-47 | The registration loop over the children, in any iteration order, equals Deserialized |
| Resolver.DeserializeFailingPrefix | core/src/main/java/dev/jsinco/brewery/configuration/serializers/EventRegistrySerializer.java:43-45 | Once an event fails to load, no later child changes the failure |
| ResolverFacts.DeserializeSucceedsIffAllResolve | core/src/main/java/dev/jsinco/brewery/configuration/serializers/EventRegistrySerializer.java:43-45 | deserialize succeeds if and only if every top-level child reads with an empty banned set |
| ResolverFacts.DeserializedKeys | core/src/main/java/dev/jsinco/brewery/configuration/serializers/EventRegistrySerializer.java:43-45 | The registry's keys are exactly the parsed keys of the top-level names |
| ResolverFacts.DeserializeRegistersChild | core/src/main/java/dev/jsinco/brewery/configuration/serializers/EventRegistrySerializer.java:43-45 | A child whose key no other child shares is registered as exactly the event readEvent gives for it |
| ResolverFacts.DeserializeFailsAtFirstFailure | core/src/main/java/dev/jsinco/brewery/configuration/serializers/EventRegistrySerializer.java:43-45 | The first failing child in visiting order decides the exception |
| ResolverFacts.ThresholdsAndDefaults | core/src/main/java/dev/jsinco/brewery/configuration/serializers/EventRegistrySerializer.java:83-91 | Each threshold is getInt of its node when present and 0 otherwise; an absent steps list gives no steps |
| ResolverFacts.StepsAreConcatenation | core/src/main/java/dev/jsinco/brewery/configuration/serializers/EventRegistrySerializer.java:93-96 | An event's steps are the in-order concatenation of the expansions of its raw steps |
| ResolverFacts.StepsSucceedOnlyIfEveryStep | core/src/main/java/dev/jsinco/brewery/configuration/serializers/EventRegistrySerializer.java:93-96 | A step list reads only if every raw step reads |
| ResolverFacts.StepsFailAtFirstFailure | core/src/main/java/dev/jsinco/brewery/configuration/serializers/EventRegistrySerializer.java:93-96 | The first failing raw step decides the exception |
| ResolverFacts.WaitBothInOrder | core/src/main/java/dev/jsinco/brewery/configuration/serializers/EventRegistrySerializer.java:124-136 | A wait with both keys gives the conditional wait, then the timed wait |
| ResolverFacts.WaitSingle | core/src/main/java/dev/jsinco/brewery/configuration/serializers/EventRegistrySerializer.java:124-136 | A wait with one key gives exactly the matching step |
| ResolverFacts.EventBannedMonotone | core/src/main/java/dev/jsinco/brewery/configuration/serializers/EventRegistrySerializer.java:79-81 | A successful read gives the same event with any smaller banned set |
| ResolverFacts.StepsBannedMonotone | core/src/main/java/dev/jsinco/brewery/configuration/serializers/EventRegistrySerializer.java:93-96 | The same for a step list |
| ResolverFacts.StepBannedMonotone | core/src/main/java/dev/jsinco/brewery/configuration/serializers/EventRegistrySerializer.java:112-114 | The same for one step |
| ResolverFacts.ResolvedEventIsAcyclic | core/src/main/java/dev/jsinco/brewery/configuration/serializers/EventRegistrySerializer.java:79-81 | Along every chain of nested events of a read event, names are distinct and avoid the banned set |
| ResolverFacts.ResolvedStepsAreAcyclic | core/src/main/java/dev/jsinco/brewery/configuration/serializers/EventRegistrySerializer.java:93-96 | Every nested event of a step list avoids the banned set and the current event |
| ResolverFacts.ResolvedStepIsAcyclic | core/src/main/java/dev/jsinco/brewery/configuration/serializers/EventRegistrySerializer.java:112-114 | The same for the expansion of one step |
| ResolverFacts.OnlyEventStepsNest | core/src/main/java/dev/jsinco/brewery/configuration/serializers/EventRegistrySerializer.java:109-114 | Only a step of type `event` not shadowed by a builtin yields a nested event |
| ResolverFacts.EventStepReadsReference | core/src/main/java/dev/jsinco/brewery/configuration/serializers/EventRegistrySerializer.java:112-114 | An `event` step with an `event` key succeeds exactly when its target reads with the current event added to the banned set, giving that one nested event, and otherwise fails with the target's exception |
| ResolverFacts.NestedMatchesIndependentResolution | core/src/main/java/dev/jsinco/brewery/configuration/serializers/EventRegistrySerializer.java:114 | Every nested event of a read event is what its name reads to from the top level |
| ResolverFacts.NestedStepsResolvable | core/src/main/java/dev/jsinco/brewery/configuration/serializers/EventRegistrySerializer.java:112-114 | Every nested step is what its name reads to with the extended banned set |
| ResolverFacts.NestedStepResolvable | core/src/main/java/dev/jsinco/brewery/configuration/serializers/EventRegistrySerializer.java:112-114 | The same for the expansion of one step |
| ResolverFacts.AcyclicEventNeverLoops | core/src/main/java/dev/jsinco/brewery/configuration/serializers/EventRegistrySerializer.java:79-81 | When a rank strictly decreases along every event reference and every banned name outranks the event, reading it never fails with the infinite-loop error: the cycle guard fires only on a real cycle |
| ResolverFacts.AcyclicStepsNeverLoop | core/src/main/java/dev/jsinco/brewery/configuration/serializers/EventRegistrySerializer.java:93-96 | The same for a step list of such an event |
| ResolverFacts.AcyclicStepNeverLoops | core/src/main/java/dev/jsinco/brewery/configuration/serializers/EventRegistrySerializer.java:112-114 | The same for one step: the nested read's banned set is still outranked by its target |
| ResolverFacts.UnreferencingStepNeverLoops | core/src/main/java/dev/jsinco/brewery/configuration/serializers/EventRegistrySerializer.java:105-162 | A step that refers to no event never fails with the infinite-loop error |
| ResolverFacts.LiteralStepsNeverLoop | core/src/main/java/dev/jsinco/brewery/configuration/serializers/EventRegistrySerializer.java:115-159 | With parsers that do not raise it, the command, wait, potion and teleport branches never fail with the infinite-loop error |
| ResolverFacts.AcyclicSectionNeverLoops | core/src/main/java/dev/jsinco/brewery/configuration/serializers/EventRegistrySerializer.java:43-45 | deserialize of a section whose references are ranked never fails with the infinite-loop error |
| ResolverScenarios.RawStepsOfList | core/src/main/java/dev/jsinco/brewery/configuration/serializers/EventRegistrySerializer.java:87-91 | A steps list of map nodes reads as their child maps, in order |
| ResolverScenarios.SelfReferenceFails | core/src/main/java/dev/jsinco/brewery/configuration/serializers/EventRegistrySerializer.java:79-81 | An event that lists itself fails with the infinite-loop error naming it |
| ResolverScenarios.MutualReferenceFails | core/src/main/java/dev/jsinco/brewery/configuration/serializers/EventRegistrySerializer.java:79-81 | Two events referring to each other fail with the loop error naming both |
| ResolverScenarios.BogusTypeFails | core/src/main/java/dev/jsinco/brewery/configuration/serializers/EventRegistrySerializer.java:161 | A step of an unlisted type fails the event with "Unknown step type" |
| ResolverScenarios.SadScenario | core/src/main/java/dev/jsinco/brewery/configuration/serializers/EventRegistrySerializer.java:76-103 | A two-step event with alcohol 5 reads as that event, its steps in order |
| ResolverScenarios.ReadsAs | core/src/main/java/dev/jsinco/brewery/configuration/serializers/EventRegistrySerializer.java:76-103 | An event whose raw steps read as given steps reads as the event of those steps, its thresholds, its name and its parsed key |
| ResolverScenarios.SadSteps | core/src/main/java/dev/jsinco/brewery/configuration/serializers/EventRegistrySerializer.java:93-96 | Its two raw steps give a server command, then a 20-tick wait |
| ResolverScenarios.SayHiStep | core/src/main/java/dev/jsinco/brewery/configuration/serializers/EventRegistrySerializer.java:115-122 | A command step without `as` runs as SERVER |
| ResolverScenarios.TwentyTicksStep | core/src/main/java/dev/jsinco/brewery/configuration/serializers/EventRegistrySerializer.java:130-134 | A duration-only wait gives one timed wait |
| Serializer.StepToConfig | core/src/main/java/dev/jsinco/brewery/configuration/serializers/EventRegistrySerializer.java:164-200 | Every step is written with a string type; a builtin as its key alone; every other step as a literal type the reader knows; a nested event as its key; a consume step with both amounts; a timed wait as its tick count followed by `t`; a command's sender and a wait's condition name lower-cased |
| Serializer.SerializeEvent | core/src/main/java/dev/jsinco/brewery/configuration/serializers/EventRegistrySerializer.java:53-66 | An event is written as a map whose `steps` list has one entry per step |
| Serializer.SerializeEventContents | core/src/main/java/dev/jsinco/brewery/configuration/serializers/EventRegistrySerializer.java:53-66 | An event's map holds each threshold exactly when it is non-zero, as an integer, and the steps in order |
| Serializer.SerializedKeys | core/src/main/java/dev/jsinco/brewery/configuration/serializers/EventRegistrySerializer.java:51-68 | The written map's names are the name parts of the visited events' keys |
| Serializer.Serialized | core/src/main/java/dev/jsinco/brewery/configuration/serializers/EventRegistrySerializer.java:51-68 | The name part of every visited event's key is written |
| Serializer.Serialize | core/src/main/java/dev/jsinco/brewery/configuration/serializers/EventRegistrySerializer.java:49-70 | The loop over the registry, in any iteration order, equals Serialized |
| Serializer.SerializedWritesEachEvent | core/src/main/java/dev/jsinco/brewery/configuration/serializers/EventRegistrySerializer.java:67 | An event whose name no other event shares is written under its name as its own map |
| Serializer.SerializedByName | core/src/main/java/dev/jsinco/brewery/configuration/serializers/EventRegistrySerializer.java:51-68 | With events keyed by their parsed names, exactly one entry is written per event, under its name, holding its map |
| RoundTrip.StepConfigRereads | core/src/main/java/dev/jsinco/brewery/configuration/serializers/EventRegistrySerializer.java:164-200 | readEventStep reads every non-nested written step back as itself, under canonical codecs |
| RoundTrip.ResolvedStepRereadable | core/src/main/java/dev/jsinco/brewery/configuration/serializers/EventRegistrySerializer.java:105-162 | Every non-nested step readEventStep produces satisfies those codec conditions |
| RoundTrip.EventRereads | core/src/main/java/dev/jsinco/brewery/configuration/serializers/EventRegistrySerializer.java:76-103 | Every event reads the same from the written map as from the original section, for any banned set |
| RoundTrip.WrittenEventRereads | core/src/main/java/dev/jsinco/brewery/configuration/serializers/EventRegistrySerializer.java:53-66 | An event's written map reads back as the event once its steps do |
| RoundTrip.SerializedEventReads | core/src/main/java/dev/jsinco/brewery/configuration/serializers/EventRegistrySerializer.java:83-91 | readWithDefault reads back the written thresholds, an omitted 0 included, and the written steps list |
| RoundTrip.StepsRereads | core/src/main/java/dev/jsinco/brewery/configuration/serializers/EventRegistrySerializer.java:93-96 | Every step of a read step list is read back from its written map |
| RoundTrip.StepRereads | core/src/main/java/dev/jsinco/brewery/configuration/serializers/EventRegistrySerializer.java:105-162 | Every step of one raw step's expansion is read back from its written map |
| RoundTrip.LiteralStepRereads | core/src/main/java/dev/jsinco/brewery/configuration/serializers/EventRegistrySerializer.java:105-162 | The same for a step that is not a nested event |
| RoundTrip.NestedStepRereads | core/src/main/java/dev/jsinco/brewery/configuration/serializers/EventRegistrySerializer.java:181-184 | A nested event written by its key reads back as the event that name reads to |
| RoundTrip.FlattenSingletons | core/src/main/java/dev/jsinco/brewery/configuration/serializers/EventRegistrySerializer.java:93-96 | Singleton expansions concatenate back to the step list |
| RoundTrip.LoadedRegistry | core/src/main/java/dev/jsinco/brewery/configuration/serializers/EventRegistrySerializer.java:40-47 | A load registers, under the key of each top-level name, the event that name reads to, and nothing else |
| RoundTrip.SerializedOfLoaded | core/src/main/java/dev/jsinco/brewery/configuration/serializers/EventRegistrySerializer.java:49-70 | Writing a loaded registry puts each top-level name's event map under that name |
| RoundTrip.WrittenUnderNames | core/src/main/java/dev/jsinco/brewery/configuration/serializers/EventRegistrySerializer.java:67 | serialize writes the event loaded for each name under that name, and no other name |
| RoundTrip.RoundTripGivesSameRegistry | core/src/main/java/dev/jsinco/brewery/configuration/serializers/EventRegistrySerializer.java:40-70 | Loading, writing in any order and loading again in any order gives the same registry |
| RoundTrip.WrittenRereads | core/src/main/java/dev/jsinco/brewery/configuration/serializers/EventRegistrySerializer.java:49-70 | The written map has the original names and every name reads to the same event |
| RoundTrip.ReloadGivesSameRegistry | core/src/main/java/dev/jsinco/brewery/configuration/serializers/EventRegistrySerializer.java:40-47 | Any section with the same names that read to the same events loads to the same registry |
| RoundTrip.SameRegistries | core/src/main/java/dev/jsinco/brewery/configuration/serializers/EventRegistrySerializer.java:40-47 | Registries keyed by the same parsed names and agreeing under each name are equal |
| StructureMeta.Kept | bukkit/src/main/java/dev/jsinco/brewery/bukkit/structure/StructureJsonFormatValidator.java:48-59 | An entry is kept exactly when its name is a registered meta and the deserializer returns a value or null, paired with that meta; a deserializer exception other than IllegalArgumentException escapes, for a registered name, as `DeserializerFailed` of that meta |
| StructureMeta.Collect | bukkit/src/main/java/dev/jsinco/brewery/bukkit/structure/StructureJsonFormatValidator.java:46-61 | A collected map holds only registered metas |
| StructureMeta.Filled | bukkit/src/main/java/dev/jsinco/brewery/bukkit/structure/StructureJsonFormatValidator.java:67-69 | The decoded metas, unchanged, plus every mandatory meta without one mapped to its default, and no other meta |
| StructureMeta.Effective | bukkit/src/main/java/dev/jsinco/brewery/bukkit/structure/StructureJsonFormatValidator.java:72-76 | The value when its meta's validator accepts it, the meta's default otherwise |
| StructureMeta.KeyString | bukkit/src/main/java/dev/jsinco/brewery/bukkit/structure/StructureJsonFormatValidator.java:78 | The cast to BreweryKeyed succeeds exactly for a keyed value or a structure type, giving its key's name |
| StructureMeta.Emits | bukkit/src/main/java/dev/jsinco/brewery/bukkit/structure/StructureJsonFormatValidator.java:77-84 | An entry is written exactly when it is `type` or a mandatory meta of the structure type |
| StructureMeta.Emitted | bukkit/src/main/java/dev/jsinco/brewery/bukkit/structure/StructureJsonFormatValidator.java:77-93 | `type` writes the key name of its original value and throws the class cast exactly when it has none; another meta writes its validated value and throws the unreachable-code exception exactly when that value has an unknown kind |
| StructureMeta.Reformatted | bukkit/src/main/java/dev/jsinco/brewery/bukkit/structure/StructureJsonFormatValidator.java:70-94 | When the loop throws, some visited written entry throws that exception |
| StructureMeta.Prepared | bukkit/src/main/java/dev/jsinco/brewery/bukkit/structure/StructureJsonFormatValidator.java:42-69 | No meta object gives false; then a stream exception stops with that exception, decoded metas without `type` give false, a `type` that is not a structure type stops with the class cast, and otherwise the stage is ready with that structure type and the metas filled with its mandatory defaults |
| StructureMeta.Written | bukkit/src/main/java/dev/jsinco/brewery/bukkit/structure/StructureJsonFormatValidator.java:85-93 | The writer has no case exactly for a value of an unknown kind |
| StructureMeta.Get | bukkit/src/main/java/dev/jsinco/brewery/bukkit/structure/StructureJsonFormatValidator.java:104-106 | null exactly when the meta is absent, otherwise its value |
| StructureMeta.FillMandatory | bukkit/src/main/java/dev/jsinco/brewery/bukkit/structure/StructureJsonFormatValidator.java:67-69 | computeIfAbsent adds each absent mandatory meta with its default and changes no existing value |
| StructureMeta.Reformat | bukkit/src/main/java/dev/jsinco/brewery/bukkit/structure/StructureJsonFormatValidator.java:70-94 | The reformat loop, in any iteration order, equals Reformatted |
| StructureMeta.ReformatFailingPrefix | bukkit/src/main/java/dev/jsinco/brewery/bukkit/structure/StructureJsonFormatValidator.java:91-92 | Once an entry throws, the rest of the map does not change the exception |
| StructureMeta.Validate | bukkit/src/main/java/dev/jsinco/brewery/bukkit/structure/StructureJsonFormatValidator.java:42-95 | Returns false without a meta object or a type; throws what the stream or the type cast throws; otherwise returns the document with meta replaced by the reformatted object, or the exception of the loop |
| StructureMetaFacts.CollectSucceedsIff | bukkit/src/main/java/dev/jsinco/brewery/bukkit/structure/StructureJsonFormatValidator.java:46-61 | The stream and toMap succeed if and only if no deserializer throws past the catch, no kept value is null and no meta is kept twice |
| StructureMetaFacts.CollectedMetas | bukkit/src/main/java/dev/jsinco/brewery/bukkit/structure/StructureJsonFormatValidator.java:46-61 | The collected map holds each kept entry's value under its meta, and only registered metas of kept entries |
| StructureMetaFacts.ReformatSucceedsIffVisited | bukkit/src/main/java/dev/jsinco/brewery/bukkit/structure/StructureJsonFormatValidator.java:70-94 | The loop completes if and only if every visited written entry is writable |
| StructureMetaFacts.ReformatNamesVisited | bukkit/src/main/java/dev/jsinco/brewery/bukkit/structure/StructureJsonFormatValidator.java:70-94 | Exactly the names of visited written entries are written |
| StructureMetaFacts.ReformatLastWriterWins | bukkit/src/main/java/dev/jsinco/brewery/bukkit/structure/StructureJsonFormatValidator.java:86-90 | The last entry written under a name keeps its value |
| StructureMetaFacts.ReformatWritesEmitted | bukkit/src/main/java/dev/jsinco/brewery/bukkit/structure/StructureJsonFormatValidator.java:70-94 | For any iteration order: completes if and only if every type or mandatory entry is writable; writes one member per such entry's name; with distinct names, each entry's value |
| StructureMetaFacts.ReformatOrderIrrelevant | bukkit/src/main/java/dev/jsinco/brewery/bukkit/structure/StructureJsonFormatValidator.java:71 | With distinct names, the iteration order changes neither whether the loop completes nor what it writes |
| StructureMetaFacts.OutputNamesOfStructureType | bukkit/src/main/java/dev/jsinco/brewery/bukkit/structure/StructureJsonFormatValidator.java:77-84 | The new meta object's members are exactly `type` and the names of the type's mandatory metas |
| StructureMetaFacts.OutputValuesOfStructureType | bukkit/src/main/java/dev/jsinco/brewery/bukkit/structure/StructureJsonFormatValidator.java:72-90 | With distinct names, `type` holds the structure type's key, and each mandatory meta its validated value or its default |
| StructureMetaFacts.RewrittenMeta | bukkit/src/main/java/dev/jsinco/brewery/bukkit/structure/StructureJsonFormatValidator.java:62-95 | After a rewrite the document keeps every other member, and the meta object holds exactly `type` and the mandatory metas with the values above |
| StructureMetaFacts.CrashesOfStructureType | bukkit/src/main/java/dev/jsinco/brewery/bukkit/structure/StructureJsonFormatValidator.java:85-92 | The loop throws if and only if some mandatory meta's value after validation is of an unknown kind |
| StructureMetaFacts.ReformatCrashesIff | bukkit/src/main/java/dev/jsinco/brewery/bukkit/structure/StructureJsonFormatValidator.java:85-92 | validate throws in the loop exactly in that case |

## Left out

- OraxenIntegration: outside this model.
- File I/O: opening the structure file and parsing it with Gson are outside the model, and so is `dump`, which writes the result back. validate works on the parsed top-level object, and `Rewritten` stands for returning true after the dump.
- A document whose root is not a JSON object: getAsJsonObject would throw. This case, and the IOException branch, are outside the model.
- Logging: every Logger call is left out. The calls have no effect on the outcome.
- External parsers and accessors: the internals of BreweryKey.parse, Configurate's accessors and `node.get` decoding, ConditionalWaitStep.parse, WaitStep.parse, Interval.asString and the meta deserializers and validators are parameters. The round trip states in `RoundTrip.Canonical` exactly what it needs of them.
- Exceptions inside the serializer's parsers and accessors (getList, ConditionalWaitStep.parse, WaitStep.parse, the interval and location decoders): these parameters may fail with any fault and any reason. Nothing constrains them except where a lemma requires it, as `ParsersRaiseNoLoop` does. On the validator side, a deserializer exception other than IllegalArgumentException is the crash `DeserializerFailed`.
- StructureMeta.Kept: BreweryKey.parse is a total function here. A name it would throw on is not modelled, and neither are throwing validators or defaults.
- Resolver.ResolveEvent: BreweryKey.parse, at lines 98 and 109, is a total function that never throws, and WaitStep.parse returns a non-negative count.
- Serializer.Serialize: a null registry, which the `@Nullable` parameter allows and which throws a NullPointerException at line 52, is not modelled; the registry is always a map.
- ResolverFacts.AcyclicEventNeverLoops: also requires `ParsersRaiseNoLoop`, that no external parser fails with the infinite-loop message itself.
- CustomEventRegistry internals: the registry is a map from key to event. A second event with the same key replaces the first, as `Map.put` does.
- Text.Upper, Text.Lower: map ASCII letters only. Locale.ROOT's mapping of other characters is not modelled.
- Resolver.ResolvePotion: `10 * Moment.SECOND` is an unbounded integer. Java int overflow is not modelled.
- Resolver.ResolvePotion: a Configurate decode of an interval that returns null is not modelled separately; it is one of the decoder's results.
- Serializer.StepToConfig: the `default` branch of the switch throws "Unsupported event step". That branch is unreachable here, because the set of step kinds is closed.
- Serializer.StepToConfig: a teleport location is written through the `encodeLocation` parameter. How Configurate serializes a Supplier is not modelled.
- Serializer.Serialize: only the contents of the written maps are modelled, not the member order in the output file. The three thresholds are written as Java ints.
- RoundTrip.RoundTripGivesSameRegistry: needs two hypotheses. `Canonical` says the external codecs invert each other. `CanonicalNames` says every top-level name is the name part of its own key. serialize writes only `key().key()`, so an event named `ns:x` comes back as `x`.
- StructureMeta.MetaValue: models a number as an integer. Floating-point JSON numbers are not modelled; neither are JSON arrays or nested objects as meta values, except as the unknown kind `Other`.
- StructureMeta.Validate: line 73 also applies the validator to the `type` entry. The model applies it too (`Reformat`), but the result is unused, because line 78 writes the original value. A validator that throws is not modelled.
- StructureMeta.Validate: a meta default that is null, one of the `case null` cases of the switch, is not modelled; a default is always a value.
- StructureMetaFacts.OutputValuesOfStructureType: states values only when the written names are distinct (`NamesApart`). Otherwise the map's iteration order decides which entry wins a name, for example a mandatory meta whose name part is `type`, or two mandatory metas with the same name part in different namespaces.

/** The resolved event model: steps, events, the registry, and the external
    collaborators the resolver consults. */
module Events {
  import opened Failures
  import opened Keys
  import opened ConfigTree

  /** Interval: an inclusive range, used for potion amplifier and duration. */
  datatype Interval = Interval(min: int, max: int)

  /** The parsed condition of a ConditionalWaitStep (its parser is external). */
  type Condition(==, !new)

  /** The lazily evaluated Supplier<BreweryLocation> of a teleport step. */
  type LocationSupplier(==, !new)

  /** A builtin step registered in Registry.DRUNK_EVENT. */
  datatype NamedDrunkEvent = NamedDrunkEvent(key: BreweryKey)

  /** One step of an event; the set of kinds is closed. */
  datatype Step =
    | Builtin(drunkEvent: NamedDrunkEvent)
    | Nested(event: Event)                                    // CustomEvent used as a step
    | SendCommand(command: string, sender: string)            // sender: the CommandSenderType constant
    | Wait(ticks: nat)                                        // WaitStep
    | ConditionalWait(condition: Condition)                   // ConditionalWaitStep
    | ApplyPotionEffect(effect: string, amplifier: Interval, duration: Interval)
    | Consume(alcohol: int, toxins: int)
    | Teleport(location: LocationSupplier)

  /** CustomEvent: its steps in execution order, the three thresholds, its
      name and its key. */
  datatype Event = Event(
    steps: seq<Step>,
    alcohol: int,
    toxins: int,
    probabilityWeight: int,
    name: string,
    key: BreweryKey)

  /** CustomEventRegistry: events by key. */
  type Registry = map<BreweryKey, Event>

  /** Everything the resolver and the serializer take from code outside the core:
      - parseKey: BreweryKey.parse;
      - drunkEvents: the contents of Registry.DRUNK_EVENT;
      - senderNames: the constant names of SendCommand.CommandSenderType;
      - getInt, getString, getList: Configurate's accessors (getString gives None for null);
      - parseCondition, parseWait: ConditionalWaitStep.parse and WaitStep.parse;
      - decodeInterval, decodeLocation: node.get(Interval.class) and the
        Supplier<BreweryLocation> decode (Some(None) stands for a null result);
      - conditionName: getCondition().toString(); intervalText: Interval.asString();
        encodeLocation: how Configurate stores a location supplier in a node;
      - second: Moment.SECOND in ticks. */
  datatype Env = Env(
    parseKey: string -> BreweryKey,
    drunkEvents: map<BreweryKey, NamedDrunkEvent>,
    senderNames: set<string>,
    getInt: Node -> int,
    getString: Node -> Option<string>,
    getList: Node -> Result<seq<Node>>,
    parseCondition: string -> Result<Condition>,
    parseWait: string -> Result<nat>,
    decodeInterval: Node -> Result<Interval>,
    decodeLocation: Node -> Result<Option<LocationSupplier>>,
    conditionName: Condition -> string,
    intervalText: Interval -> string,
    encodeLocation: LocationSupplier -> Node,
    second: int)

  /** Configurate's accessors on nodes of the matching kind return the value
      stored there. */
  ghost predicate PlainAccessors(env: Env)
  {
    && (forall s :: env.getString(Str(s)) == Some(s))
    && (forall i :: env.getInt(Int(i)) == i)
    && (forall items :: env.getList(Lst(items)) == Ok(items))
  }
}

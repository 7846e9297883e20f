/** The structure meta normaliser: StructureJsonFormatValidator.validate
    (reading `meta`, decoding each entry with its registered meta, filling the
    mandatory metas of the structure type with defaults and writing the
    normalised `meta` object) and its helper `get`. */
module StructureMeta {
  import opened Failures
  import opened Keys
  import opened Enumeration

  /** A Gson JSON tree. An object's members are a map: a JsonObject holds each
      member name once. */
  datatype Json = JNull | JBool(b: bool) | JNum(n: int) | JStr(s: string) | JArr(items: seq<Json>)
                | JObj(members: map<string, Json>)

  /** A structure type: its key and the metas it requires. */
  datatype StructureType = StructureType(key: BreweryKey, mandatoryMeta: seq<BreweryKey>)

  /** The Java value a meta deserializer returns. `Other` is any value of a
      class the writer does not know. */
  datatype MetaValue = Number(n: int) | Bool(b: bool) | Keyed(key: BreweryKey)
                     | TypeValue(structureType: StructureType) | Text(s: string) | Other

  /** A deserializer's answer: a value, null, an IllegalArgumentException
      (caught by the stream), or any other exception (not caught). */
  datatype Decoded = Value(value: MetaValue) | Null | Rejected | Threw

  /** A StructureMeta: deserializer, validator predicate and default value. */
  datatype MetaDescriptor = MetaDescriptor(deserializer: Json -> Decoded, validator: MetaValue -> bool,
                                           defaultValue: MetaValue)

  /** BreweryKey.parse, the keys of Registry.STRUCTURE_META, each meta's
      descriptor (metas are identified by their key) and StructureMeta.TYPE. */
  datatype MetaEnv = MetaEnv(parseKey: string -> BreweryKey, registered: set<BreweryKey>,
                             describe: BreweryKey -> MetaDescriptor, typeMeta: BreweryKey)

  /** The unchecked exceptions that escape validate:
      an exception other than IllegalArgumentException from a deserializer,
      IllegalStateException from Collectors.toMap on a repeated meta,
      NullPointerException from Collectors.toMap on a null value,
      ClassCastException on a `type` value that is not a structure type (or
      not keyed, at the writer), IllegalStateException on an unwritable value. */
  datatype Crash = DeserializerFailed(meta: BreweryKey) | DuplicateMeta(meta: BreweryKey) | NullMetaValue | NotAStructureType | Unwritable(meta: BreweryKey)

  datatype Run<T> = Done(value: T) | Crashed(reason: Crash)
  {
    predicate IsFailure() { Crashed? }
    function PropagateFailure<U>(): Run<U> requires Crashed? { Crashed(reason) }
    function Extract(): T requires Done? { value }
  }

  /** What validate does with a document: rewrites it (returns true), leaves
      it alone (returns false), or throws. */
  datatype Outcome = Rewritten(document: map<string, Json>) | Invalid | Failed(reason: Crash)

  /** The stream's Pair of meta and deserialized value; a null value is None. */
  datatype Pair = Pair(meta: BreweryKey, value: Option<MetaValue>)

  /** The map step of the stream for one member of `meta`: None (filtered
      out) when the name is not a registered meta or the deserializer rejects
      the value; a crash when the deserializer throws anything else. */
  function Kept(env: MetaEnv, members: map<string, Json>, name: string): (p: Run<Option<Pair>>)
    requires name in members
    ensures p.Crashed? <==> env.parseKey(name) in env.registered
                            && env.describe(env.parseKey(name)).deserializer(members[name]).Threw?
    ensures p.Crashed? ==> p.reason == DeserializerFailed(env.parseKey(name))
    ensures p.Done? && p.value.Some? <==>
              env.parseKey(name) in env.registered
              && var decoded := env.describe(env.parseKey(name)).deserializer(members[name]);
                 decoded.Value? || decoded.Null?
    ensures p.Done? && p.value.Some? ==> p.value.value.meta == env.parseKey(name)
  {
    var meta := env.parseKey(name);
    if meta !in env.registered then Done(None)
    else
      match env.describe(meta).deserializer(members[name])
      case Rejected => Done(None)
      case Threw => Crashed(DeserializerFailed(meta))
      case Null => Done(Some(Pair(meta, None)))
      case Value(v) => Done(Some(Pair(meta, Some(v))))
  }

  /** The stream collected with Collectors.toMap, visiting the members in
      `names` order: a null value or a meta seen twice throws. */
  function Collect(env: MetaEnv, members: map<string, Json>, names: seq<string>): (r: Run<map<BreweryKey, MetaValue>>)
    requires forall i :: 0 <= i < |names| ==> names[i] in members
    ensures r.Done? ==> forall k :: k in r.value ==> k in env.registered
    decreases |names|
  {
    if |names| == 0 then Done(map[])
    else
      var metas :- Collect(env, members, names[..|names| - 1]);
      var kept :- Kept(env, members, names[|names| - 1]);
      match kept
      case None => Done(metas)
      case Some(Pair(meta, value)) =>
        if value.None? then Crashed(NullMetaValue)
        else if meta in metas then Crashed(DuplicateMeta(meta))
        else Done(metas[meta := value.value])
  }

  /** The decoded metas after the computeIfAbsent loop: every mandatory meta
      that was absent maps to its default. */
  function Filled(env: MetaEnv, metas: map<BreweryKey, MetaValue>, mandatory: seq<BreweryKey>): (filled: map<BreweryKey, MetaValue>)
    ensures filled.Keys == metas.Keys + (set m | m in mandatory)
    ensures forall k :: k in metas ==> filled[k] == metas[k]
    ensures forall k :: k in filled && k !in metas ==> filled[k] == env.describe(k).defaultValue
  {
    map k | k in metas.Keys + (set m | m in mandatory) :: if k in metas then metas[k] else env.describe(k).defaultValue
  }

  /** The value written for a meta: a value its validator refuses becomes the
      meta's default. */
  function Effective(env: MetaEnv, meta: BreweryKey, value: MetaValue): (v: MetaValue)
    ensures env.describe(meta).validator(value) ==> v == value
    ensures !env.describe(meta).validator(value) ==> v == env.describe(meta).defaultValue
  {
    if env.describe(meta).validator(value) then value else env.describe(meta).defaultValue
  }

  /** The JSON primitive the switch writes for a value; None for the
      unreachable branch that throws. */
  function Written(value: MetaValue): (j: Option<Json>)
    ensures j.None? <==> value.Other?
  {
    match value
    case Number(n) => Some(JNum(n))
    case Bool(b) => Some(JBool(b))
    case Keyed(key) => Some(JStr(key.key))
    case TypeValue(t) => Some(JStr(t.key.key))
    case Text(s) => Some(JStr(s))
    case Other => None
  }

  /** The cast to BreweryKeyed of the `type` entry, then its key string. */
  function KeyString(value: MetaValue): (s: Option<string>)
    ensures s.Some? <==> value.Keyed? || value.TypeValue?
    ensures value.Keyed? ==> s == Some(value.key.key)
    ensures value.TypeValue? ==> s == Some(value.structureType.key.key)
  {
    match value
    case Keyed(key) => Some(key.key)
    case TypeValue(t) => Some(t.key.key)
    case _ => None
  }

  /** Whether an entry of the filled map is written: `type`, and the metas
      the structure type requires. */
  predicate Emits(env: MetaEnv, structureType: StructureType, meta: BreweryKey)
    ensures Emits(env, structureType, meta) <==> meta == env.typeMeta || meta in structureType.mandatoryMeta
  {
    meta == env.typeMeta || meta in structureType.mandatoryMeta
  }

  /** The member name an entry is written under. */
  function OutName(env: MetaEnv, meta: BreweryKey): string
  {
    if meta == env.typeMeta then "type" else meta.key
  }

  /** What one emitted entry writes: the key string of the ORIGINAL value for
      `type`, the validated value for the others. */
  function Emitted(env: MetaEnv, filled: map<BreweryKey, MetaValue>, meta: BreweryKey): (r: Run<Json>)
    requires meta in filled
    ensures meta == env.typeMeta ==> (r.Done? <==> KeyString(filled[meta]).Some?)
    ensures meta == env.typeMeta && r.Done? ==> r.value == JStr(KeyString(filled[meta]).value)
    ensures meta == env.typeMeta && r.Crashed? ==> r.reason == NotAStructureType
    ensures meta != env.typeMeta ==> (r.Done? <==> !Effective(env, meta, filled[meta]).Other?)
    ensures meta != env.typeMeta && r.Done? ==> Some(r.value) == Written(Effective(env, meta, filled[meta]))
    ensures meta != env.typeMeta && r.Crashed? ==> r.reason == Unwritable(meta)
  {
    if meta == env.typeMeta then
      match KeyString(filled[meta])
      case None => Crashed(NotAStructureType)
      case Some(s) => Done(JStr(s))
    else
      match Written(Effective(env, meta, filled[meta]))
      case None => Crashed(Unwritable(meta))
      case Some(j) => Done(j)
  }

  /** The reformat loop over the entries of the filled map in `order`, the
      map's iteration order; a later entry overwrites an earlier one written
      under the same name. */
  function Reformatted(env: MetaEnv, structureType: StructureType, filled: map<BreweryKey, MetaValue>,
                       order: seq<BreweryKey>): (r: Run<map<string, Json>>)
    requires forall i :: 0 <= i < |order| ==> order[i] in filled
    ensures r.Crashed? ==>
              exists i :: 0 <= i < |order| && Emits(env, structureType, order[i])
                          && Emitted(env, filled, order[i]) == Crashed(r.reason)
    decreases |order|
  {
    if |order| == 0 then Done(map[])
    else
      var output :- Reformatted(env, structureType, filled, order[..|order| - 1]);
      var meta := order[|order| - 1];
      if !Emits(env, structureType, meta) then Done(output)
      else
        var j :- Emitted(env, filled, meta);
        Done(output[OutName(env, meta) := j])
  }

  /** How far validate gets before the reformat loop. */
  datatype Stage = NotValid | Stopped(reason: Crash) | Ready(structureType: StructureType, filled: map<BreweryKey, MetaValue>)

  /** `members` lists every member of `meta` when it is an object. */
  predicate ListsMeta(root: map<string, Json>, names: seq<string>)
  {
    "meta" in root && root["meta"].JObj? ==> Enumerates(names, root["meta"].members.Keys)
  }

  /** validate up to line 69: the `meta` object, the decoded metas, the
      structure type read with `get`, and the defaults filled in. */
  function Prepared(env: MetaEnv, root: map<string, Json>, names: seq<string>): (stage: Stage)
    requires ListsMeta(root, names)
    ensures "meta" !in root || !root["meta"].JObj? ==> stage.NotValid?
    ensures !stage.NotValid? ==> "meta" in root && root["meta"].JObj?
    ensures stage.Stopped? ==> Collect(env, root["meta"].members, names).Crashed? || stage.reason == NotAStructureType
    ensures stage.Ready? ==>
              && env.typeMeta in stage.filled && stage.filled[env.typeMeta] == TypeValue(stage.structureType)
              && forall m :: m in stage.structureType.mandatoryMeta ==> m in stage.filled
    ensures "meta" in root && root["meta"].JObj? ==>
              var c := Collect(env, root["meta"].members, names);
              && (c.Crashed? ==> stage == Stopped(c.reason))
              && (c.Done? && env.typeMeta !in c.value ==> stage == NotValid)
              && (c.Done? && env.typeMeta in c.value && !c.value[env.typeMeta].TypeValue? ==>
                    stage == Stopped(NotAStructureType))
              && (c.Done? && env.typeMeta in c.value && c.value[env.typeMeta].TypeValue? ==>
                    var t := c.value[env.typeMeta].structureType;
                    stage == Ready(t, Filled(env, c.value, t.mandatoryMeta)))
  {
    if "meta" !in root || !root["meta"].JObj? then NotValid
    else
      match Collect(env, root["meta"].members, names)
      case Crashed(reason) => Stopped(reason)
      case Done(metas) =>
        if env.typeMeta !in metas then NotValid
        else
          match metas[env.typeMeta]
          case TypeValue(t) => Ready(t, Filled(env, metas, t.mandatoryMeta))
          case _ => Stopped(NotAStructureType)
  }

  /** The document after `jsonObject.add("meta", reformatedJson)`. */
  function Completed(root: map<string, Json>, reformatted: Run<map<string, Json>>): Outcome
  {
    match reformatted
    case Done(output) => Rewritten(root["meta" := JObj(output)])
    case Crashed(reason) => Failed(reason)
  }

  /** get: the value held for a meta, null when it has none. */
  function Get(metas: map<BreweryKey, MetaValue>, meta: BreweryKey): (v: Option<MetaValue>)
    ensures v.Some? <==> meta in metas
    ensures v.Some? ==> v.value == metas[meta]
  {
    if meta in metas then Some(metas[meta]) else None
  }

  /** The computeIfAbsent loop (lines 67-69). */
  method FillMandatory(env: MetaEnv, metas: map<BreweryKey, MetaValue>, mandatory: seq<BreweryKey>)
    returns (filled: map<BreweryKey, MetaValue>)
    ensures filled == Filled(env, metas, mandatory)
  {
    filled := metas;
    for i := 0 to |mandatory|
      invariant filled.Keys == metas.Keys + (set m | m in mandatory[..i])
      invariant forall k :: k in metas ==> filled[k] == metas[k]
      invariant forall k :: k in filled && k !in metas ==> filled[k] == env.describe(k).defaultValue
    {
      var meta := mandatory[i];
      assert mandatory[..i + 1] == mandatory[..i] + [meta];
      if meta !in filled {
        filled := filled[meta := env.describe(meta).defaultValue];
      }
    }
    assert mandatory[..|mandatory|] == mandatory;
  }

  /** The reformat loop (lines 70-94): each entry's value is validated, `type`
      is written from the original value, other metas only when mandatory. */
  method Reformat(env: MetaEnv, structureType: StructureType, filled: map<BreweryKey, MetaValue>, order: seq<BreweryKey>)
    returns (r: Run<map<string, Json>>)
    requires Enumerates(order, filled.Keys)
    ensures r == Reformatted(env, structureType, filled, order)
  {
    var output: map<string, Json> := map[];
    var i := 0;
    while i < |order|
      invariant 0 <= i <= |order|
      invariant Reformatted(env, structureType, filled, order[..i]) == Done(output)
    {
      var meta := order[i];
      assert order[..i + 1][..i] == order[..i];
      var value := filled[meta];
      if !env.describe(meta).validator(value) {
        value := env.describe(meta).defaultValue;
      }
      if meta == env.typeMeta {
        var key := KeyString(filled[meta]);
        if key.None? {
          ReformatFailingPrefix(env, structureType, filled, order, i + 1);
          return Crashed(NotAStructureType);
        }
        output := output["type" := JStr(key.value)];
      } else if meta in structureType.mandatoryMeta {
        var j := Written(value);
        if j.None? {
          ReformatFailingPrefix(env, structureType, filled, order, i + 1);
          return Crashed(Unwritable(meta));
        }
        output := output[meta.key := j.value];
      }
      i := i + 1;
    }
    assert order[..i] == order;
    r := Done(output);
  }

  /** Once an entry throws, the loop's outcome is that exception. */
  lemma {:induction false} ReformatFailingPrefix(env: MetaEnv, structureType: StructureType, filled: map<BreweryKey, MetaValue>,
                                                 order: seq<BreweryKey>, j: nat)
    requires forall i :: 0 <= i < |order| ==> order[i] in filled
    requires j <= |order|
    requires Reformatted(env, structureType, filled, order[..j]).Crashed?
    ensures Reformatted(env, structureType, filled, order) == Reformatted(env, structureType, filled, order[..j])
    decreases |order|
  {
    if j < |order| {
      assert order[..|order| - 1][..j] == order[..j];
      ReformatFailingPrefix(env, structureType, filled, order[..|order| - 1], j);
    } else {
      assert order[..j] == order;
    }
  }

  /** validate, lines 42-95, on the parsed document `root` whose `meta`
      members are streamed in `names` order. `visit` is the iteration order
      the structure meta map gave the reformat loop. */
  method Validate(env: MetaEnv, root: map<string, Json>, names: seq<string>) returns (r: Outcome, visit: seq<BreweryKey>)
    requires ListsMeta(root, names)
    ensures Prepared(env, root, names).NotValid? ==> r == Invalid
    ensures Prepared(env, root, names).Stopped? ==> r == Failed(Prepared(env, root, names).reason)
    ensures Prepared(env, root, names).Ready? ==>
              var stage := Prepared(env, root, names);
              && Enumerates(visit, stage.filled.Keys)
              && r == Completed(root, Reformatted(env, stage.structureType, stage.filled, visit))
  {
    visit := [];
    if "meta" !in root || !root["meta"].JObj? {
      return Invalid, visit;
    }
    var metaJson := root["meta"].members;
    var collected := Collect(env, metaJson, names);
    if collected.Crashed? {
      return Failed(collected.reason), visit;
    }
    var structureMeta := collected.value;
    var typeValue := Get(structureMeta, env.typeMeta);
    if typeValue.None? {
      return Invalid, visit;
    }
    if !typeValue.value.TypeValue? {
      return Failed(NotAStructureType), visit;
    }
    var structureType := typeValue.value.structureType;
    structureMeta := FillMandatory(env, structureMeta, structureType.mandatoryMeta);
    visit := Enumerate(structureMeta.Keys);
    var reformatted := Reformat(env, structureType, structureMeta, visit);
    if reformatted.Crashed? {
      return Failed(reformatted.reason), visit;
    }
    r := Rewritten(root["meta" := JObj(reformatted.value)]);
  }
}

/** Properties of the structure meta normaliser. */
module StructureMetaFacts {
  import opened Failures
  import opened Keys
  import opened Enumeration
  import opened StructureMeta

  // ---------------------------------------------------------------------
  // Collecting the decoded metas

  /** Whether the entry named `name` passes the filter of the stream. */
  predicate Retained(env: MetaEnv, members: map<string, Json>, name: string)
    requires name in members
  {
    Kept(env, members, name).Done? && Kept(env, members, name).value.Some?
  }

  /** No deserializer throws something other than IllegalArgumentException. */
  predicate NoDeserializerThrows(env: MetaEnv, members: map<string, Json>, names: seq<string>)
    requires forall i :: 0 <= i < |names| ==> names[i] in members
  {
    forall i :: 0 <= i < |names| ==> !Kept(env, members, names[i]).Crashed?
  }

  /** No kept entry has a null value. */
  predicate NoNullValue(env: MetaEnv, members: map<string, Json>, names: seq<string>)
    requires forall i :: 0 <= i < |names| ==> names[i] in members
  {
    forall i :: 0 <= i < |names| && Retained(env, members, names[i]) ==> Kept(env, members, names[i]).value.value.value.Some?
  }

  /** No two kept entries name the same meta. */
  predicate NoRepeatedMeta(env: MetaEnv, members: map<string, Json>, names: seq<string>)
    requires forall i :: 0 <= i < |names| ==> names[i] in members
  {
    forall i, j :: 0 <= i < j < |names| && Retained(env, members, names[i]) && Retained(env, members, names[j]) ==>
      env.parseKey(names[i]) != env.parseKey(names[j])
  }

  /** The stream and Collectors.toMap succeed exactly when no deserializer
      throws, no kept value is null and no meta is kept twice. */
  lemma {:induction false} CollectSucceedsIff(env: MetaEnv, members: map<string, Json>, names: seq<string>)
    requires forall i :: 0 <= i < |names| ==> names[i] in members
    ensures Collect(env, members, names).Done? <==>
              NoDeserializerThrows(env, members, names) && NoNullValue(env, members, names) && NoRepeatedMeta(env, members, names)
    decreases |names|
  {
    if |names| > 0 {
      var init := names[..|names| - 1];
      CollectSucceedsIff(env, members, init);
      assert forall i :: 0 <= i < |init| ==> init[i] == names[i];
      if Collect(env, members, init).Done? {
        CollectedMetas(env, members, init);
      }
    }
  }

  /** The collected map holds, for each kept entry, its meta and value, and
      nothing else: entries with an unknown name or a rejected value are
      dropped. */
  lemma {:induction false} CollectedMetas(env: MetaEnv, members: map<string, Json>, names: seq<string>)
    requires forall i :: 0 <= i < |names| ==> names[i] in members
    requires Collect(env, members, names).Done?
    ensures var metas := Collect(env, members, names).value;
            forall i :: 0 <= i < |names| && Retained(env, members, names[i]) ==>
              env.parseKey(names[i]) in metas && Some(metas[env.parseKey(names[i])]) == Kept(env, members, names[i]).value.value.value
    ensures var metas := Collect(env, members, names).value;
            forall k :: k in metas ==>
              k in env.registered && exists i :: 0 <= i < |names| && env.parseKey(names[i]) == k && Retained(env, members, names[i])
    decreases |names|
  {
    if |names| > 0 {
      var init := names[..|names| - 1];
      CollectedMetas(env, members, init);
      assert forall i :: 0 <= i < |init| ==> init[i] == names[i];
    }
  }

  // ---------------------------------------------------------------------
  // The reformat loop

  /** The loop completes exactly when every emitted entry visited is writable. */
  lemma {:induction false} ReformatSucceedsIffVisited(env: MetaEnv, structureType: StructureType,
                                                      filled: map<BreweryKey, MetaValue>, order: seq<BreweryKey>)
    requires forall i :: 0 <= i < |order| ==> order[i] in filled
    ensures Reformatted(env, structureType, filled, order).Done? <==>
            forall i :: 0 <= i < |order| && Emits(env, structureType, order[i]) ==> Emitted(env, filled, order[i]).Done?
    decreases |order|
  {
    if |order| > 0 {
      var init := order[..|order| - 1];
      ReformatSucceedsIffVisited(env, structureType, filled, init);
      assert forall i :: 0 <= i < |init| ==> init[i] == order[i];
    }
  }

  /** Each visited emitted entry is written under its name, and only those
      names are written. */
  lemma {:induction false} ReformatNamesVisited(env: MetaEnv, structureType: StructureType,
                                                filled: map<BreweryKey, MetaValue>, order: seq<BreweryKey>)
    requires forall i :: 0 <= i < |order| ==> order[i] in filled
    requires Reformatted(env, structureType, filled, order).Done?
    ensures var output := Reformatted(env, structureType, filled, order).value;
            forall i :: 0 <= i < |order| && Emits(env, structureType, order[i]) ==> OutName(env, order[i]) in output
    ensures var output := Reformatted(env, structureType, filled, order).value;
            forall x :: x in output ==>
              exists i :: 0 <= i < |order| && Emits(env, structureType, order[i]) && OutName(env, order[i]) == x
    decreases |order|
  {
    if |order| > 0 {
      var init := order[..|order| - 1];
      ReformatNamesVisited(env, structureType, filled, init);
      assert forall i :: 0 <= i < |init| ==> init[i] == order[i];
    }
  }

  /** An entry visited after every other entry written under its name keeps
      what it wrote. */
  lemma {:induction false} ReformatLastWriterWins(env: MetaEnv, structureType: StructureType,
                                                  filled: map<BreweryKey, MetaValue>, order: seq<BreweryKey>, i: nat)
    requires forall j :: 0 <= j < |order| ==> order[j] in filled
    requires Reformatted(env, structureType, filled, order).Done?
    requires i < |order| && Emits(env, structureType, order[i])
    requires forall j :: i < j < |order| && Emits(env, structureType, order[j]) ==> OutName(env, order[j]) != OutName(env, order[i])
    ensures OutName(env, order[i]) in Reformatted(env, structureType, filled, order).value
    ensures Emitted(env, filled, order[i]).Done?
    ensures Reformatted(env, structureType, filled, order).value[OutName(env, order[i])] == Emitted(env, filled, order[i]).value
    decreases |order|
  {
    if i < |order| - 1 {
      ReformatLastWriterWins(env, structureType, filled, order[..|order| - 1], i);
    }
  }

  /** No two emitted entries are written under the same name. */
  predicate NamesApart(env: MetaEnv, structureType: StructureType, filled: map<BreweryKey, MetaValue>)
  {
    forall k, k' ::
      (k in filled && k' in filled && Emits(env, structureType, k) && Emits(env, structureType, k')
       && OutName(env, k) == OutName(env, k')) ==> k == k'
  }

  /** For any iteration order of the filled map: the loop completes exactly
      when every emitted entry is writable; it then writes one member per
      name of an emitted entry, and, when those names are apart, each
      entry's own value. */
  lemma ReformatWritesEmitted(env: MetaEnv, structureType: StructureType, filled: map<BreweryKey, MetaValue>,
                              order: seq<BreweryKey>)
    requires Enumerates(order, filled.Keys)
    ensures Reformatted(env, structureType, filled, order).Done? <==>
            forall k :: k in filled && Emits(env, structureType, k) ==> Emitted(env, filled, k).Done?
    ensures Reformatted(env, structureType, filled, order).Done? ==>
              Reformatted(env, structureType, filled, order).value.Keys
              == set k | k in filled && Emits(env, structureType, k) :: OutName(env, k)
    ensures Reformatted(env, structureType, filled, order).Done? && NamesApart(env, structureType, filled) ==>
              forall k :: k in filled && Emits(env, structureType, k) ==>
                Reformatted(env, structureType, filled, order).value[OutName(env, k)] == Emitted(env, filled, k).value
  {
    ReformatSucceedsIffVisited(env, structureType, filled, order);
    var result := Reformatted(env, structureType, filled, order);
    if result.Done? {
      ReformatNamesVisited(env, structureType, filled, order);
      var output := result.value;
      var names := set k | k in filled && Emits(env, structureType, k) :: OutName(env, k);
      forall x | x in output ensures x in names {
        var i :| 0 <= i < |order| && Emits(env, structureType, order[i]) && OutName(env, order[i]) == x;
      }
      forall x | x in names ensures x in output {
        var k :| k in filled && Emits(env, structureType, k) && OutName(env, k) == x;
        var i :| 0 <= i < |order| && order[i] == k;
      }
      if NamesApart(env, structureType, filled) {
        forall k | k in filled && Emits(env, structureType, k)
          ensures output[OutName(env, k)] == Emitted(env, filled, k).value
        {
          var i :| 0 <= i < |order| && order[i] == k;
          ReformatLastWriterWins(env, structureType, filled, order, i);
        }
      }
    }
  }

  /** When the written names are apart, the iteration order of the map does
      not change whether the loop completes, nor what it writes. */
  lemma ReformatOrderIrrelevant(env: MetaEnv, structureType: StructureType, filled: map<BreweryKey, MetaValue>,
                                order: seq<BreweryKey>, other: seq<BreweryKey>)
    requires Enumerates(order, filled.Keys) && Enumerates(other, filled.Keys)
    requires NamesApart(env, structureType, filled)
    ensures Reformatted(env, structureType, filled, order).Done? == Reformatted(env, structureType, filled, other).Done?
    ensures Reformatted(env, structureType, filled, order).Done? ==>
              Reformatted(env, structureType, filled, order) == Reformatted(env, structureType, filled, other)
  {
    ReformatWritesEmitted(env, structureType, filled, order);
    ReformatWritesEmitted(env, structureType, filled, other);
    if Reformatted(env, structureType, filled, order).Done? {
      var a := Reformatted(env, structureType, filled, order).value;
      var b := Reformatted(env, structureType, filled, other).value;
      forall x | x in a ensures b[x] == a[x] {
        var k :| k in filled && Emits(env, structureType, k) && OutName(env, k) == x;
      }
      assert a == b;
    }
  }

  // ---------------------------------------------------------------------
  // The whole normaliser

  /** The value a mandatory meta is written from: its decoded value after
      validation, or its default when it had none. A default is written
      unvalidated, which is the same: a refused default is replaced by itself. */
  function MandatoryValue(env: MetaEnv, metas: map<BreweryKey, MetaValue>, meta: BreweryKey): MetaValue
  {
    if meta in metas then Effective(env, meta, metas[meta]) else env.describe(meta).defaultValue
  }

  /** The member names of the reformatted `meta` object for a structure
      type: `type` and the names of the type's mandatory metas. */
  lemma OutputNamesOfStructureType(env: MetaEnv, structureType: StructureType, metas: map<BreweryKey, MetaValue>,
                                   filled: map<BreweryKey, MetaValue>, visit: seq<BreweryKey>)
    requires env.typeMeta in metas
    requires filled == Filled(env, metas, structureType.mandatoryMeta)
    requires Enumerates(visit, filled.Keys)
    requires Reformatted(env, structureType, filled, visit).Done?
    ensures Reformatted(env, structureType, filled, visit).value.Keys
            == {"type"} + (set m | m in structureType.mandatoryMeta && m != env.typeMeta :: m.key)
  {
    var t := structureType;
    ReformatWritesEmitted(env, t, filled, visit);
    var emitted := set k | k in filled && Emits(env, t, k) :: OutName(env, k);
    var expected := {"type"} + (set m | m in t.mandatoryMeta && m != env.typeMeta :: m.key);
    forall x | x in emitted ensures x in expected {
      var k :| k in filled && Emits(env, t, k) && OutName(env, k) == x;
    }
    forall x | x in expected ensures x in emitted {
      if x == "type" {
        assert env.typeMeta in filled && OutName(env, env.typeMeta) == x;
      } else {
        var m :| m in t.mandatoryMeta && m != env.typeMeta && m.key == x;
        assert m in filled && OutName(env, m) == x;
      }
    }
  }

  /** The values of the reformatted `meta` object for a structure type, when
      no two entries share a name: `type` is the type's key, each mandatory
      meta its value. */
  lemma OutputValuesOfStructureType(env: MetaEnv, structureType: StructureType, metas: map<BreweryKey, MetaValue>,
                                    filled: map<BreweryKey, MetaValue>, visit: seq<BreweryKey>)
    requires env.typeMeta in metas && metas[env.typeMeta] == TypeValue(structureType)
    requires filled == Filled(env, metas, structureType.mandatoryMeta)
    requires Enumerates(visit, filled.Keys)
    requires Reformatted(env, structureType, filled, visit).Done?
    requires NamesApart(env, structureType, filled)
    ensures var output := Reformatted(env, structureType, filled, visit).value;
            && "type" in output && output["type"] == JStr(structureType.key.key)
            && forall m :: m in structureType.mandatoryMeta && m != env.typeMeta ==>
                 m.key in output && Some(output[m.key]) == Written(MandatoryValue(env, metas, m))
  {
    var t := structureType;
    ReformatWritesEmitted(env, t, filled, visit);
    var output := Reformatted(env, t, filled, visit).value;
    assert env.typeMeta in filled && OutName(env, env.typeMeta) == "type";
    forall m | m in t.mandatoryMeta && m != env.typeMeta
      ensures m.key in output && Some(output[m.key]) == Written(MandatoryValue(env, metas, m))
    {
      assert m in filled && OutName(env, m) == m.key;
    }
  }

  /** After a rewrite, `meta` holds `type` and the mandatory metas of the
      decoded structure type, under their names, and nothing else; every
      other member of the document is kept. */
  lemma RewrittenMeta(env: MetaEnv, root: map<string, Json>, names: seq<string>, visit: seq<BreweryKey>)
    requires ListsMeta(root, names) && Prepared(env, root, names).Ready?
    requires Enumerates(visit, Prepared(env, root, names).filled.Keys)
    requires Reformatted(env, Prepared(env, root, names).structureType, Prepared(env, root, names).filled, visit).Done?
    ensures var stage := Prepared(env, root, names);
            var metas := Collect(env, root["meta"].members, names).value;
            var document := Completed(root, Reformatted(env, stage.structureType, stage.filled, visit)).document;
            && env.typeMeta in metas && metas[env.typeMeta] == TypeValue(stage.structureType)
            && document.Keys == root.Keys
            && (forall key :: key in root && key != "meta" ==> document[key] == root[key])
            && document["meta"].JObj?
            && document["meta"].members.Keys
               == {"type"} + (set m | m in stage.structureType.mandatoryMeta && m != env.typeMeta :: m.key)
            && (NamesApart(env, stage.structureType, stage.filled) ==>
                  && document["meta"].members["type"] == JStr(stage.structureType.key.key)
                  && forall m :: m in stage.structureType.mandatoryMeta && m != env.typeMeta ==>
                       Some(document["meta"].members[m.key]) == Written(MandatoryValue(env, metas, m)))
  {
    var stage := Prepared(env, root, names);
    var metas := Collect(env, root["meta"].members, names).value;
    assert env.typeMeta in metas && metas[env.typeMeta] == TypeValue(stage.structureType);
    assert stage.filled == Filled(env, metas, stage.structureType.mandatoryMeta);
    OutputNamesOfStructureType(env, stage.structureType, metas, stage.filled, visit);
    if NamesApart(env, stage.structureType, stage.filled) {
      OutputValuesOfStructureType(env, stage.structureType, metas, stage.filled, visit);
    }
  }

  /** For a structure type, the reformat loop throws exactly when some
      mandatory meta's value, after validation, is of a kind the writer does
      not know. */
  lemma CrashesOfStructureType(env: MetaEnv, structureType: StructureType, metas: map<BreweryKey, MetaValue>,
                               filled: map<BreweryKey, MetaValue>, visit: seq<BreweryKey>)
    requires env.typeMeta in metas && metas[env.typeMeta] == TypeValue(structureType)
    requires filled == Filled(env, metas, structureType.mandatoryMeta)
    requires Enumerates(visit, filled.Keys)
    ensures Reformatted(env, structureType, filled, visit).Crashed? <==>
            exists m :: m in structureType.mandatoryMeta && m != env.typeMeta && MandatoryValue(env, metas, m).Other?
  {
    var t := structureType;
    ReformatWritesEmitted(env, t, filled, visit);
    assert env.typeMeta in filled && Emitted(env, filled, env.typeMeta).Done?;
    if Reformatted(env, t, filled, visit).Crashed? {
      var k :| k in filled && Emits(env, t, k) && Emitted(env, filled, k).Crashed?;
      assert k != env.typeMeta && k in t.mandatoryMeta && MandatoryValue(env, metas, k).Other?;
    } else {
      forall m | m in t.mandatoryMeta && m != env.typeMeta ensures !MandatoryValue(env, metas, m).Other? {
        assert m in filled && Emits(env, t, m);
      }
    }
  }

  /** validate fails in the reformat loop exactly when some mandatory meta of
      the decoded structure type has, after validation, a value of a kind the
      writer does not know. */
  lemma ReformatCrashesIff(env: MetaEnv, root: map<string, Json>, names: seq<string>, visit: seq<BreweryKey>)
    requires ListsMeta(root, names) && Prepared(env, root, names).Ready?
    requires Enumerates(visit, Prepared(env, root, names).filled.Keys)
    ensures var stage := Prepared(env, root, names);
            var metas := Collect(env, root["meta"].members, names).value;
            Completed(root, Reformatted(env, stage.structureType, stage.filled, visit)).Failed? <==>
              exists m :: m in stage.structureType.mandatoryMeta && m != env.typeMeta && MandatoryValue(env, metas, m).Other?
  {
    var stage := Prepared(env, root, names);
    var metas := Collect(env, root["meta"].members, names).value;
    CrashesOfStructureType(env, stage.structureType, metas, stage.filled, visit);
  }
}

/** The relations of a predefine record: one per namespace, plus those given
    in the configuration, each normalised to a reference descriptor. */
module Relations {
  import opened JsValues
  import opened Objects
  import opened Settings

  /** The properties every relation descriptor is forced to carry. */
  const ForcedKeys: seq<string> := ["type", "ref", "index", "aggregatable", "taggable", "autopopulate"]

  /** `{ maxDepth: 1 }`. */
  const AutopopulateOption: Value := Record([("maxDepth", Num(1))])

  lemma ForcedKeysDistinct()
    ensures Distinct(ForcedKeys)
  {
    var s1: seq<string> := ["type"];
    var s2 := s1 + ["ref"];
    var s3 := s2 + ["index"];
    var s4 := s3 + ["aggregatable"];
    var s5 := s4 + ["taggable"];
    DistinctSnoc([], "type");
    assert [] + ["type"] == s1;
    DistinctSnoc(s1, "ref");
    DistinctSnoc(s2, "index");
    DistinctSnoc(s3, "aggregatable");
    DistinctSnoc(s4, "taggable");
    assert "autopopulate" !in s5 by {
      assert "autopopulate"[1] != "aggregatable"[1];
    }
    DistinctSnoc(s5, "autopopulate");
    assert s5 + ["autopopulate"] == ForcedKeys;
  }

  /** The descriptor literal a relation is merged with, for a given `ref`:
      an ObjectId reference that is indexed, aggregatable, taggable and
      autopopulated one level deep. */
  function Forced(ref: Value): (r: Obj<Value>)
    ensures WellFormed(r)
    ensures r.keys == ForcedKeys
  {
    ForcedKeysDistinct();
    Object(ForcedKeys, map[
      "type" := ObjectId,
      "ref" := ref,
      "index" := Bool(true),
      "aggregatable" := Bool(true),
      "taggable" := Bool(true),
      "autopopulate" := AutopopulateOption])
  }

  /** The forced flags are present with their forced values. */
  predicate HasForcedFlags(d: Obj<Value>)
  {
    && Get(d, "type") == Some(ObjectId)
    && Get(d, "index") == Some(Bool(true))
    && Get(d, "aggregatable") == Some(Bool(true))
    && Get(d, "taggable") == Some(Bool(true))
    && Get(d, "autopopulate") == Some(AutopopulateOption)
  }

  lemma ForcedSpec(ref: Value)
    ensures HasForcedFlags(Forced(ref))
    ensures Get(Forced(ref), "ref") == Some(ref)
  {
  }

  /** The relation names derived from the namespaces: each namespace,
      singularised and lower-cased, in order. */
  function NamespacePaths(lib: Library, cfg: Config): (r: seq<string>)
    ensures |r| == |cfg.namespaces|
    ensures forall i :: 0 <= i < |r| ==> r[i] == lib.toLower(lib.singularize(cfg.namespaces[i]))
    ensures forall p :: p in r <==> exists ns :: ns in cfg.namespaces && p == lib.toLower(lib.singularize(ns))
  {
    var namespaces := cfg.namespaces;
    var paths := seq(|namespaces|, i requires 0 <= i < |namespaces| => lib.toLower(lib.singularize(namespaces[i])));
    assert forall p :: p in paths <==> exists ns :: ns in namespaces && p == lib.toLower(lib.singularize(ns)) by {
      forall p | exists ns :: ns in namespaces && p == lib.toLower(lib.singularize(ns))
        ensures p in paths
      {
        var ns :| ns in namespaces && p == lib.toLower(lib.singularize(ns));
        var i :| 0 <= i < |namespaces| && namespaces[i] == ns;
        assert paths[i] == p;
      }
    }
    paths
  }

  /** The descriptor of a namespace relation: `mergeObjects` of the forced
      literal with the model name as `ref`. */
  function NamespaceDescriptor(cfg: Config): (r: Obj<Value>)
    ensures WellFormed(r) && r.keys == ForcedKeys
    ensures HasForcedFlags(r)
    ensures Get(r, "ref") == Some(Str(cfg.modelName))
  {
    var forced := Forced(Str(cfg.modelName));
    MergeObjectsOne(forced);
    ForcedSpec(Str(cfg.modelName));
    MergeObjects([forced])
  }

  /** `parseNamespaceRelations()`: one relation per distinct derived name, in
      order of first appearance, and no other; each is a reference to the
      model with the forced flags. */
  function ParseNamespaceRelations(lib: Library, cfg: Config): (r: Obj<Obj<Value>>)
    ensures WellFormed(r)
    ensures r.keys == Dedup(NamespacePaths(lib, cfg))
    ensures forall k :: k in r.keys <==> exists ns :: ns in cfg.namespaces && k == lib.toLower(lib.singularize(ns))
    ensures forall k :: k in r.keys ==> Get(r, k) == Some(NamespaceDescriptor(cfg))
  {
    var paths := NamespacePaths(lib, cfg);
    MapValues(ZipObject(paths, paths), _ => NamespaceDescriptor(cfg))
  }

  /** `relation.ref || MODEL_NAME`: the configured reference when it is
      truthy, and otherwise the model name. */
  function RefOf(cfg: Config, relation: Obj<Value>): (r: Value)
    ensures Get(relation, "ref").Some? && Truthy(Get(relation, "ref").value) ==> r == Get(relation, "ref").value
    ensures r == Str(cfg.modelName) || (Get(relation, "ref") == Some(r) && Truthy(r))
  {
    match Get(relation, "ref")
    case Some(v) => if Truthy(v) then v else Str(cfg.modelName)
    case None => Str(cfg.modelName)
  }

  /** The descriptor of a configured relation: the relation merged with the
      forced literal. The forced flags win, `ref` is the configured one when
      it is truthy and the model name otherwise, and every other property
      keeps its configured value. */
  function GivenDescriptor(cfg: Config, relation: Obj<Value>): (r: Obj<Value>)
    ensures HasForcedFlags(r)
    ensures Get(r, "ref") == Some(RefOf(cfg, relation))
    ensures forall p :: p !in ForcedKeys ==> Get(r, p) == Get(relation, p)
  {
    var forced := Forced(RefOf(cfg, relation));
    ForcedSpec(RefOf(cfg, relation));
    Merge(relation, forced)
  }

  /** For a relation that is a plain object, its descriptor is
      `mergeObjects(relation, forced)`: its own properties in place, then the
      forced ones it lacks. */
  lemma GivenDescriptorIsMergeObjects(cfg: Config, relation: Obj<Value>)
    requires WellFormed(relation)
    ensures GivenDescriptor(cfg, relation) == MergeObjects([relation, Forced(RefOf(cfg, relation))])
    ensures WellFormed(GivenDescriptor(cfg, relation))
    ensures GivenDescriptor(cfg, relation).keys == relation.keys + Absent(ForcedKeys, relation.keys)
  {
    var forced := Forced(RefOf(cfg, relation));
    MergeObjectsTwo(relation, forced);
    MergeSpec(relation, forced);
  }

  /** `parseGivenRelations()`: the configured relations, same names in the
      same order, each replaced by its normalised descriptor. */
  function ParseGivenRelations(cfg: Config, relations: Obj<Obj<Value>>): (r: Obj<Obj<Value>>)
    ensures r.keys == relations.keys
    ensures WellFormed(relations) ==> WellFormed(r)
    ensures forall k :: Get(r, k) == if k in relations.values then Some(GivenDescriptor(cfg, relations.values[k])) else None
  {
    MapValues(relations, relation => GivenDescriptor(cfg, relation))
  }

  /** Every configured relation comes out normalised: the forced flags, the
      `ref` rule, and every other configured property unchanged. */
  lemma GivenRelationsNormalised(cfg: Config, relations: Obj<Obj<Value>>)
    ensures forall k :: k in relations.values ==>
      && Get(ParseGivenRelations(cfg, relations), k).Some?
      && HasForcedFlags(Get(ParseGivenRelations(cfg, relations), k).value)
      && Get(Get(ParseGivenRelations(cfg, relations), k).value, "ref") == Some(RefOf(cfg, relations.values[k]))
      && forall p :: p !in ForcedKeys ==>
        Get(Get(ParseGivenRelations(cfg, relations), k).value, p) == Get(relations.values[k], p)
  {
  }

  /** The relation map `createRelationsSchema()` builds its schema from:
      `mergeObjects(given, namespace)`. Its names are the configured ones in
      their order, then the namespace names not configured. */
  function CreateRelationsSchema(lib: Library, cfg: Config, relations: Obj<Obj<Value>>): (r: Obj<Obj<Value>>)
    requires WellFormed(relations)
    ensures WellFormed(r)
    ensures r.keys == relations.keys + Absent(Dedup(NamespacePaths(lib, cfg)), relations.keys)
  {
    var given := ParseGivenRelations(cfg, relations);
    var namespaced := ParseNamespaceRelations(lib, cfg);
    MergeSpec(given, namespaced);
    Merge(given, namespaced)
  }

  /** The schema's relations are `mergeObjects(parseGivenRelations(),
      parseNamespaceRelations())`. */
  lemma SchemaIsMergeObjects(lib: Library, cfg: Config, relations: Obj<Obj<Value>>)
    requires WellFormed(relations)
    ensures CreateRelationsSchema(lib, cfg, relations)
      == MergeObjects([ParseGivenRelations(cfg, relations), ParseNamespaceRelations(lib, cfg)])
  {
    MergeObjectsTwo(ParseGivenRelations(cfg, relations), ParseNamespaceRelations(lib, cfg));
  }

  /** The schema has a relation for every configured name and every
      namespace name, and for no other. */
  lemma SchemaNames(lib: Library, cfg: Config, relations: Obj<Obj<Value>>)
    requires WellFormed(relations)
    ensures forall k ::
      k in CreateRelationsSchema(lib, cfg, relations).keys <==> k in relations.keys || k in NamespacePaths(lib, cfg)
  {
  }

  /** A namespace name takes the namespace descriptor, even when it is also
      configured: the later argument of the merge wins. */
  lemma SchemaNamespaceWins(lib: Library, cfg: Config, relations: Obj<Obj<Value>>)
    requires WellFormed(relations)
    ensures forall k :: k in NamespacePaths(lib, cfg) ==>
      Get(CreateRelationsSchema(lib, cfg, relations), k) == Some(NamespaceDescriptor(cfg))
  {
  }

  /** A name that is both configured and derived from a namespace ends up
      with the properties the namespace relation forces, `ref` included: the
      model name replaces any configured reference. Under a recursive merge
      `type`, `index`, `aggregatable`, `taggable`, `ref` and
      `autopopulate.maxDepth` would still be forced, but a configured
      `autopopulate` could keep further properties of its own. */
  lemma SchemaSharedNameForced(lib: Library, cfg: Config, relations: Obj<Obj<Value>>)
    requires WellFormed(relations)
    ensures forall k :: k in relations.values && k in NamespacePaths(lib, cfg) ==>
      && Get(CreateRelationsSchema(lib, cfg, relations), k).Some?
      && HasForcedFlags(Get(CreateRelationsSchema(lib, cfg, relations), k).value)
      && Get(Get(CreateRelationsSchema(lib, cfg, relations), k).value, "ref") == Some(Str(cfg.modelName))
  {
    SchemaNamespaceWins(lib, cfg, relations);
  }

  /** A name that is only configured keeps its normalised descriptor. */
  lemma SchemaGivenKept(lib: Library, cfg: Config, relations: Obj<Obj<Value>>)
    requires WellFormed(relations)
    ensures forall k :: k in relations.values && k !in NamespacePaths(lib, cfg) ==>
      Get(CreateRelationsSchema(lib, cfg, relations), k) == Some(GivenDescriptor(cfg, relations.values[k]))
  {
  }

  /** Every relation of the schema carries the forced flags. */
  lemma SchemaRelationsForced(lib: Library, cfg: Config, relations: Obj<Obj<Value>>)
    requires WellFormed(relations)
    ensures forall k :: k in CreateRelationsSchema(lib, cfg, relations).values ==>
      HasForcedFlags(CreateRelationsSchema(lib, cfg, relations).values[k])
  {
    var r := CreateRelationsSchema(lib, cfg, relations);
    SchemaNames(lib, cfg, relations);
    SchemaNamespaceWins(lib, cfg, relations);
    SchemaGivenKept(lib, cfg, relations);
    forall k | k in r.values
      ensures HasForcedFlags(r.values[k])
    {
      assert k in r.keys;
      if k !in NamespacePaths(lib, cfg) {
        assert Get(r, k) == Some(GivenDescriptor(cfg, relations.values[k]));
      }
    }
  }

  /** A configured relation `owner` with `ref: 'Party'` keeps that reference
      in `parseGivenRelations()`. */
  lemma GivenRefKept(cfg: Config, relations: Obj<Obj<Value>>)
    requires Get(relations, "owner") == Some(Object(["ref"], map["ref" := Str("Party")]))
    ensures Get(ParseGivenRelations(cfg, relations), "owner").Some?
    ensures Get(Get(ParseGivenRelations(cfg, relations), "owner").value, "ref") == Some(Str("Party"))
  {
    var owner := Object(["ref"], map["ref" := Str("Party")]);
    assert RefOf(cfg, owner) == Str("Party") by {
      assert Get(owner, "ref") == Some(Str("Party"));
    }
    var d := GivenDescriptor(cfg, owner);
    assert Get(ParseGivenRelations(cfg, relations), "owner") == Some(d);
  }

  /** But when a namespace also derives the name `owner`, the merged relations
      refer to the model instead: the namespace relation replaces the
      configured one. */
  lemma NamespaceBeatsGivenRef(lib: Library, cfg: Config, relations: Obj<Obj<Value>>)
    requires WellFormed(relations)
    requires Get(relations, "owner") == Some(Object(["ref"], map["ref" := Str("Party")]))
    requires |cfg.namespaces| > 0 && lib.toLower(lib.singularize(cfg.namespaces[0])) == "owner"
    ensures Get(CreateRelationsSchema(lib, cfg, relations), "owner").Some?
    ensures Get(Get(CreateRelationsSchema(lib, cfg, relations), "owner").value, "ref") == Some(Str(cfg.modelName))
  {
    assert cfg.namespaces[0] in cfg.namespaces;
    assert "owner" in NamespacePaths(lib, cfg);
    SchemaNamespaceWins(lib, cfg, relations);
  }
}

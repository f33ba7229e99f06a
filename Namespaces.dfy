/** The namespace tables: each configured namespace with the bucket (the
    collection name) its records are kept under. */
module Namespaces {
  import opened Objects
  import opened StringOrder
  import opened Settings

  datatype NamespaceEntry = NamespaceEntry(namespace: string, bucket: string)

  /** `NAMESPACE_MAP`: one entry per configured namespace, in order, with the
      namespace's bucket. */
  function NamespaceMap(lib: Library, cfg: Config): (r: seq<NamespaceEntry>)
    ensures |r| == |cfg.namespaces|
    ensures forall i :: 0 <= i < |r| ==> r[i].namespace == cfg.namespaces[i]
    ensures forall e :: e in r ==> e.bucket == lib.collectionNameOf(e.namespace)
  {
    seq(|cfg.namespaces|, i requires 0 <= i < |cfg.namespaces| =>
      NamespaceEntry(cfg.namespaces[i], lib.collectionNameOf(cfg.namespaces[i])))
  }

  /** `NAMESPACE_DICTIONARY`: each configured namespace, once, in order of
      first appearance, with its bucket. */
  function NamespaceDictionary(lib: Library, cfg: Config): (r: Obj<string>)
    ensures WellFormed(r)
    ensures r.keys == Dedup(cfg.namespaces)
    ensures forall ns :: ns in cfg.namespaces ==> Get(r, ns) == Some(lib.collectionNameOf(ns))
  {
    ZipObjectMapped(cfg.namespaces, lib.collectionNameOf);
    ZipObject(cfg.namespaces, Mapped(cfg.namespaces, lib.collectionNameOf))
  }

  /** The dictionary and the map agree: every entry of the map is an entry of
      the dictionary, and every entry of the dictionary is in the map. */
  lemma DictionaryAgreesWithMap(lib: Library, cfg: Config)
    ensures forall e :: e in NamespaceMap(lib, cfg) ==> Get(NamespaceDictionary(lib, cfg), e.namespace) == Some(e.bucket)
    ensures forall ns :: ns in NamespaceDictionary(lib, cfg).values ==>
      NamespaceEntry(ns, NamespaceDictionary(lib, cfg).values[ns]) in NamespaceMap(lib, cfg)
  {
    var m := NamespaceMap(lib, cfg);
    var d := NamespaceDictionary(lib, cfg);
    forall e | e in m
      ensures Get(d, e.namespace) == Some(e.bucket)
    {
      var i :| 0 <= i < |m| && m[i] == e;
      assert e.namespace in cfg.namespaces;
    }
    forall ns | ns in d.values
      ensures NamespaceEntry(ns, d.values[ns]) in m
    {
      assert ns in cfg.namespaces;
      var i :| 0 <= i < |cfg.namespaces| && cfg.namespaces[i] == ns;
      assert m[i] == NamespaceEntry(ns, d.values[ns]);
    }
  }

  /** `BUCKETS`: the buckets of the namespace map, ascending, each once. */
  function Buckets(lib: Library, cfg: Config): (r: seq<string>)
    ensures StrictlySorted(r)
    ensures forall b :: b in r <==> exists ns :: ns in cfg.namespaces && b == lib.collectionNameOf(ns)
  {
    var m := NamespaceMap(lib, cfg);
    var buckets := seq(|m|, i requires 0 <= i < |m| => m[i].bucket);
    assert forall b :: b in buckets <==> exists ns :: ns in cfg.namespaces && b == lib.collectionNameOf(ns) by {
      forall b | exists ns :: ns in cfg.namespaces && b == lib.collectionNameOf(ns)
        ensures b in buckets
      {
        var ns :| ns in cfg.namespaces && b == lib.collectionNameOf(ns);
        var i :| 0 <= i < |cfg.namespaces| && cfg.namespaces[i] == ns;
        assert buckets[i] == b;
      }
    }
    SortedUniq(buckets)
  }

  /** `DEFAULT_BUCKET`: the bucket of the default namespace, the one the
      namespace tables give it when it is configured. */
  function DefaultBucket(lib: Library, cfg: Config): (r: string)
    ensures cfg.defaultNamespace in cfg.namespaces ==> Get(NamespaceDictionary(lib, cfg), cfg.defaultNamespace) == Some(r)
    ensures forall e :: e in NamespaceMap(lib, cfg) && e.namespace == cfg.defaultNamespace ==> e.bucket == r
  {
    lib.collectionNameOf(cfg.defaultNamespace)
  }

  /** The default bucket is one of the buckets when the default namespace is
      one of the configured namespaces. */
  lemma DefaultBucketListed(lib: Library, cfg: Config)
    requires cfg.defaultNamespace in cfg.namespaces
    ensures DefaultBucket(lib, cfg) in Buckets(lib, cfg)
  {
  }

  /** Without configuration, the only bucket is the default one. */
  lemma DefaultsBuckets(lib: Library)
    ensures Buckets(lib, Defaults) == [DefaultBucket(lib, Defaults)]
  {
    var b := Buckets(lib, Defaults);
    var d := DefaultBucket(lib, Defaults);
    assert "Setting" in Defaults.namespaces;
    assert forall x :: x in b <==> x in [d];
    assert StrictlySorted([d]);
    SortedUnique(b, [d]);
  }
}

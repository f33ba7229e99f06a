/** Locale handling: the localized field names of a path, the filling of a
    localized value for every configured locale, its abbreviations, and the
    unique index over localized names. */
module Locales {
  import opened JsValues
  import opened Objects
  import opened StringOrder
  import opened Settings

  /** `${path}.${locale}` for each configured locale, in order. */
  function LocalizedFields(path: string, locales: seq<string>): (r: seq<string>)
    ensures |r| == |locales|
    ensures forall i :: 0 <= i < |locales| ==> r[i] == path + "." + locales[i]
  {
    seq(|locales|, i requires 0 <= i < |locales| => path + "." + locales[i])
  }

  lemma LocalizedFieldsMembers(path: string, locales: seq<string>)
    ensures forall f :: f in LocalizedFields(path, locales) <==> exists l :: l in locales && f == path + "." + l
  {
    var fields := LocalizedFields(path, locales);
    forall f | exists l :: l in locales && f == path + "." + l
      ensures f in fields
    {
      var l :| l in locales && f == path + "." + l;
      var i :| 0 <= i < |locales| && locales[i] == l;
      assert fields[i] == f;
    }
  }

  /** `localizedNamesFor(path)`: exactly the names `path.l` for the configured
      locales `l`, ascending and without repetition. */
  function LocalizedNamesFor(cfg: Config, path: string): (r: seq<string>)
    ensures StrictlySorted(r)
    ensures forall f :: f in r <==> exists l :: l in cfg.locales && f == path + "." + l
  {
    LocalizedFieldsMembers(path, cfg.locales);
    SortedUniq(LocalizedFields(path, cfg.locales))
  }

  /** A shared prefix does not change how two strings compare. */
  lemma {:induction false} LessPrefixed(p: string, a: string, b: string)
    requires Less(a, b)
    ensures Less(p + a, p + b)
  {
    if |p| > 0 {
      LessPrefixed(p[1..], a, b);
      assert (p + a)[0] == p[0] == (p + b)[0];
      assert (p + a)[1..] == p[1..] + a;
      assert (p + b)[1..] == p[1..] + b;
    } else {
      assert p + a == a && p + b == b;
    }
  }

  /** With the locales `en` and `sw`, the names of `name` are
      `['name.en', 'name.sw']`. */
  lemma LocalizedNamesForExample(cfg: Config)
    requires cfg.locales == ["en", "sw"]
    ensures LocalizedNamesFor(cfg, "name") == ["name.en", "name.sw"]
  {
    var expected := ["name.en", "name.sw"];
    var fields := LocalizedFields("name", cfg.locales);
    assert fields[0] == "name." + "en" == "name.en";
    assert fields[1] == "name." + "sw" == "name.sw";
    assert fields == expected;
    assert StrictlySorted(expected) by {
      LessPrefixed("name.", "en", "sw");
    }
    SortedUniqOfSorted(expected);
  }

  /** `val[key]`: undefined when `val` has no such property. */
  function Lookup(val: Obj<Value>, key: string): (r: Value)
    ensures r != Undefined ==> Get(val, key) == Some(r)
    ensures r == Undefined <==> Get(val, key) == None || Get(val, key) == Some(Undefined)
  {
    match Get(val, key)
    case Some(v) => v
    case None => Undefined
  }

  /** The fallback of a localized value: the value of the default locale when
      it is truthy, otherwise the first value of `val` (undefined when `val`
      is empty). */
  function DefaultValue(cfg: Config, val: Obj<Value>): (r: Value)
    ensures Truthy(Lookup(val, cfg.defaultLocale)) ==> r == Lookup(val, cfg.defaultLocale)
    ensures WellFormed(val) && |val.keys| > 0 && !Truthy(Lookup(val, cfg.defaultLocale)) ==> Get(val, val.keys[0]) == Some(r)
    ensures r == Undefined || exists k :: Get(val, k) == Some(r)
  {
    var preferred := Lookup(val, cfg.defaultLocale);
    if Truthy(preferred) then preferred
    else if |val.keys| == 0 then Undefined
    else Lookup(val, val.keys[0])
  }

  /** The value a locale ends up with: its own value unless that is null or
      undefined, otherwise the fallback. */
  function Resolved(cfg: Config, val: Obj<Value>, locale: string): (r: Value)
    ensures Get(val, locale).Some? && !IsNotValue(Get(val, locale).value) ==> r == Get(val, locale).value
    ensures IsNotValue(Lookup(val, locale)) ==> r == DefaultValue(cfg, val)
    ensures r == Undefined || exists k :: Get(val, k) == Some(r)
  {
    var own := Lookup(val, locale);
    if IsNotValue(own) then DefaultValue(cfg, val) else own
  }

  /** `localizedValuesFor(val)`: one property per configured locale, in the
      order of first appearance in the configuration and nothing else; a
      locale that has a value keeps it, any other takes the fallback. */
  method LocalizedValuesFor(cfg: Config, val: Obj<Value>) returns (value: Obj<Value>)
    ensures WellFormed(value)
    ensures value.keys == Dedup(cfg.locales)
    ensures forall l :: l in cfg.locales && !IsNotValue(Lookup(val, l)) ==> Get(value, l) == Get(val, l)
    ensures forall l :: l in cfg.locales && IsNotValue(Lookup(val, l)) ==> Get(value, l) == Some(DefaultValue(cfg, val))
  {
    value := Empty();
    var defaultValue := DefaultValue(cfg, val);
    ghost var resolved := l => Resolved(cfg, val, l);
    for i := 0 to |cfg.locales|
      invariant FilledUpTo(value, cfg.locales, i, resolved)
    {
      var locale := cfg.locales[i];
      var own := Lookup(val, locale);
      FillStep(value, cfg.locales, i, resolved);
      value := Set(value, locale, if IsNotValue(own) then defaultValue else own);
    }
    FillDone(value, cfg.locales, resolved);
  }

  /** The two locales `en` and `sw`, in that order, are distinct. */
  lemma EnSwDistinct()
    ensures Dedup(["en", "sw"]) == ["en", "sw"]
  {
    DistinctSnoc([], "en");
    DistinctSnoc(["en"], "sw");
    assert [] + ["en"] == ["en"] && ["en"] + ["sw"] == ["en", "sw"];
    DedupDistinct(["en", "sw"]);
  }

  /** With the locales `en` and `sw` and default `en`, `{ en: 'Tomato' }`
      fills to `{ en: 'Tomato', sw: 'Tomato' }`. */
  method LocalizedValuesForFallbackExample(cfg: Config) returns (value: Obj<Value>)
    requires cfg.locales == ["en", "sw"] && cfg.defaultLocale == "en"
    ensures value == Object(["en", "sw"], map["en" := Str("Tomato"), "sw" := Str("Tomato")])
  {
    var val := Object(["en"], map["en" := Str("Tomato")]);
    value := LocalizedValuesFor(cfg, val);
    EnSwDistinct();
    assert "sw" in cfg.locales && IsNotValue(Lookup(val, "sw"));
    assert "en" in cfg.locales && !IsNotValue(Lookup(val, "en"));
    assert value.values == map["en" := Str("Tomato"), "sw" := Str("Tomato")];
  }

  /** `{ en: 'Tomato', sw: 'Nyanya' }` fills to itself. */
  method LocalizedValuesForCompleteExample(cfg: Config) returns (value: Obj<Value>)
    requires cfg.locales == ["en", "sw"]
    ensures value == Object(["en", "sw"], map["en" := Str("Tomato"), "sw" := Str("Nyanya")])
  {
    var val := Object(["en", "sw"], map["en" := Str("Tomato"), "sw" := Str("Nyanya")]);
    value := LocalizedValuesFor(cfg, val);
    EnSwDistinct();
    assert "sw" in cfg.locales && !IsNotValue(Lookup(val, "sw"));
    assert "en" in cfg.locales && !IsNotValue(Lookup(val, "en"));
    assert value.values == val.values;
  }

  /** Every locale gets a value that is neither null nor undefined exactly
      when the fallback is one, or every locale has its own value. */
  lemma ResolvedHasValue(cfg: Config, val: Obj<Value>)
    ensures (forall l :: l in cfg.locales ==> !IsNotValue(Resolved(cfg, val, l)))
        <==> (!IsNotValue(DefaultValue(cfg, val)) || forall l :: l in cfg.locales ==> !IsNotValue(Lookup(val, l)))
  {
    if !IsNotValue(DefaultValue(cfg, val)) {
    } else if exists l :: l in cfg.locales && IsNotValue(Lookup(val, l)) {
      var l :| l in cfg.locales && IsNotValue(Lookup(val, l));
      assert IsNotValue(Resolved(cfg, val, l));
    }
  }

  /** With no value at all, the fallback is undefined and so is every locale's
      value: filling does not guarantee a value for each locale. */
  lemma EmptyValueStaysUndefined(cfg: Config, locale: string)
    ensures Resolved(cfg, Empty(), locale) == Undefined
  {
  }

  /** The entries of `o` whose value is not empty, by assigning them in order
      onto an empty object. */
  function CompactPrefix(o: Obj<string>, n: nat): (r: Obj<string>)
    requires WellFormed(o) && n <= |o.keys|
    ensures WellFormed(r)
    ensures forall k :: Get(r, k) == if k in o.keys[..n] && o.values[k] != "" then Some(o.values[k]) else None
  {
    if n == 0 then Empty()
    else
      var k := o.keys[n - 1];
      assert o.keys[..n] == o.keys[..n - 1] + [k];
      var r := CompactPrefix(o, n - 1);
      if o.values[k] == "" then r else Set(r, k, o.values[k])
  }

  /** `compact` on an object of strings: drops the properties whose value is
      empty and keeps the rest unchanged. */
  function Compact(o: Obj<string>): (r: Obj<string>)
    requires WellFormed(o)
    ensures WellFormed(r)
    ensures forall k :: Get(r, k) == if k in o.values && o.values[k] != "" then Some(o.values[k]) else None
  {
    assert o.keys[..|o.keys|] == o.keys;
    CompactPrefix(o, |o.keys|)
  }

  /** Compacting an object filled with `f(k)` for each `k` of `ks` keeps the
      keys whose value is not empty. */
  lemma CompactOfFilled(o: Obj<string>, ks: seq<string>, f: string -> string)
    requires WellFormed(o) && o.keys == Dedup(ks)
    requires forall k :: k in ks ==> Get(o, k) == Some(f(k))
    ensures forall k :: k in Compact(o).keys ==> k in ks
    ensures forall k :: k in ks ==> Get(Compact(o), k) == if f(k) == "" then None else Some(f(k))
  {
    var r := Compact(o);
    forall k | k in r.keys
      ensures k in ks
    {
      assert Get(r, k) != None;
    }
  }

  /** `localizedAbbreviationsFor(val)`: for each configured locale, the
      abbreviation of the value that locale resolves to, unless that
      abbreviation is empty; no other property. */
  method LocalizedAbbreviationsFor(lib: Library, cfg: Config, val: Obj<Value>) returns (value: Obj<string>)
    ensures WellFormed(value)
    ensures forall k :: k in value.keys ==> k in cfg.locales
    ensures forall l :: l in cfg.locales ==>
      Get(value, l) == if lib.abbreviate(Resolved(cfg, val, l)) == "" then None else Some(lib.abbreviate(Resolved(cfg, val, l)))
  {
    var abbreviations := Empty();
    var defaultValue := DefaultValue(cfg, val);
    ghost var abbreviated := l => lib.abbreviate(Resolved(cfg, val, l));
    for i := 0 to |cfg.locales|
      invariant FilledUpTo(abbreviations, cfg.locales, i, abbreviated)
    {
      var locale := cfg.locales[i];
      var own := Lookup(val, locale);
      var resolved := if IsNotValue(own) then defaultValue else own;
      assert resolved == Resolved(cfg, val, locale);
      var abbreviation := lib.abbreviate(resolved);
      FillStep(abbreviations, cfg.locales, i, abbreviated);
      abbreviations := Set(abbreviations, locale, abbreviation);
    }
    FillDone(abbreviations, cfg.locales, abbreviated);
    value := Compact(abbreviations);
    CompactOfFilled(abbreviations, cfg.locales, abbreviated);
  }

  /** With the locales `en` and `sw` and default `en`, `{ en: 'Tomato' }`
      abbreviates to `{ en: 'T', sw: 'T' }` when the abbreviation of the word
      is `T`. */
  method LocalizedAbbreviationsForFallbackExample(lib: Library, cfg: Config) returns (value: Obj<string>)
    requires cfg.locales == ["en", "sw"] && cfg.defaultLocale == "en"
    requires lib.abbreviate(Str("Tomato")) == "T"
    ensures Get(value, "en") == Some("T") && Get(value, "sw") == Some("T")
    ensures forall k :: k in value.keys ==> k == "en" || k == "sw"
  {
    var val := Object(["en"], map["en" := Str("Tomato")]);
    value := LocalizedAbbreviationsFor(lib, cfg, val);
    assert "sw" in cfg.locales && Resolved(cfg, val, "sw") == Str("Tomato");
    assert "en" in cfg.locales && Resolved(cfg, val, "en") == Str("Tomato");
  }

  /** With the locales `en` and `sw`, `{ en: 'Tomato', sw: 'Nyanya' }`
      abbreviates to `{ en: 'T', sw: 'N' }` when the abbreviations of the two
      words are `T` and `N`. */
  method LocalizedAbbreviationsForExample(lib: Library, cfg: Config) returns (value: Obj<string>)
    requires cfg.locales == ["en", "sw"]
    requires lib.abbreviate(Str("Tomato")) == "T" && lib.abbreviate(Str("Nyanya")) == "N"
    ensures Get(value, "en") == Some("T") && Get(value, "sw") == Some("N")
    ensures forall k :: k in value.keys ==> k == "en" || k == "sw"
  {
    var val := Object(["en", "sw"], map["en" := Str("Tomato"), "sw" := Str("Nyanya")]);
    value := LocalizedAbbreviationsFor(lib, cfg, val);
    assert "sw" in cfg.locales && Resolved(cfg, val, "sw") == Str("Nyanya");
    assert "en" in cfg.locales && Resolved(cfg, val, "en") == Str("Tomato");
  }

  /** The fixed part of the unique index. */
  const IndexBase: seq<string> := ["namespace", "bucket", "code"]

  /** A localized name is never one of the fixed index fields. */
  lemma NameFieldIsNotBase(locale: string)
    ensures "name." + locale !in IndexBase
  {
    var f := "name." + locale;
    assert f[0] == 'n' && f[4] == '.';
    assert "namespace"[4] == 's';
  }

  /** The index after the localized names of the first `i` fields, on top of
      the fixed fields `base`. */
  ghost predicate IndexedUpTo(indexes: Obj<int>, base: seq<string>, fields: seq<string>, i: nat)
    requires i <= |fields|
  {
    WellFormed(indexes) && indexes.keys == base + Dedup(fields[..i])
    && forall k :: k in indexes.values ==> indexes.values[k] == 1
  }

  /** Each loop step appends the next field unless it was already there, and
      every value stays 1. */
  lemma IndexStep(indexes: Obj<int>, base: seq<string>, fields: seq<string>, i: nat)
    requires i < |fields| && fields[i] !in base && IndexedUpTo(indexes, base, fields, i)
    ensures IndexedUpTo(Set(indexes, fields[i], 1), base, fields, i + 1)
  {
    SetAfterDedup(indexes, base, fields, i, 1);
    assert Set(indexes, fields[i], 1).values == indexes.values[fields[i] := 1];
  }

  /** The literal `{ namespace: 1, bucket: 1, code: 1 }`. */
  function IndexBaseObject(): (r: Obj<int>)
    ensures WellFormed(r) && r.keys == IndexBase
    ensures forall k :: k in r.values ==> r.values[k] == 1
  {
    assert Distinct(IndexBase[..2]) by {
      assert IndexBase[..2][..1] == ["namespace"];
    }
    Object(IndexBase, map["namespace" := 1, "bucket" := 1, "code" := 1])
  }

  /** `mergeObjects({ namespace: 1, bucket: 1, code: 1 })`, a fresh copy of
      the fixed fields. */
  method CopyIndexBase() returns (r: Obj<int>)
    ensures r == IndexBaseObject()
  {
    var base := IndexBaseObject();
    MergeObjectsOne(base);
    r := MergeObjects([base]);
  }

  /** After the last locale, the index has the fixed fields and exactly the
      localized names. */
  lemma IndexDone(cfg: Config, indexes: Obj<int>)
    requires IndexedUpTo(indexes, IndexBase, LocalizedFields("name", cfg.locales), |cfg.locales|)
    ensures indexes.keys == IndexBase + Dedup(LocalizedFields("name", cfg.locales))
    ensures forall k :: k in indexes.keys <==> k in IndexBase || k in LocalizedNamesFor(cfg, "name")
  {
    var fields := LocalizedFields("name", cfg.locales);
    assert fields[..|cfg.locales|] == fields;
    LocalizedFieldsMembers("name", cfg.locales);
  }

  /** `uniqueIndexes()`: `namespace`, `bucket` and `code` first, then the
      localized names of `name` in configuration order, and nothing else;
      every entry is 1. */
  method UniqueIndexes(cfg: Config) returns (indexes: Obj<int>)
    ensures WellFormed(indexes)
    ensures indexes.keys == IndexBase + Dedup(LocalizedFields("name", cfg.locales))
    ensures forall k :: k in indexes.keys <==> k in IndexBase || k in LocalizedNamesFor(cfg, "name")
    ensures forall k :: k in indexes.values ==> indexes.values[k] == 1
  {
    indexes := CopyIndexBase();
    ghost var fields := LocalizedFields("name", cfg.locales);
    assert fields[..0] == [];
    for i := 0 to |cfg.locales|
      invariant IndexedUpTo(indexes, IndexBase, fields, i)
    {
      NameFieldIsNotBase(cfg.locales[i]);
      assert fields[i] == "name." + cfg.locales[i];
      IndexStep(indexes, IndexBase, fields, i);
      indexes := Set(indexes, "name." + cfg.locales[i], 1);
    }
    IndexDone(cfg, indexes);
  }
}

# predefine schema assembly, modelled in Dafny

predefine is a generic reference-data document ("predefine") with a REST
API. When it starts, it builds one document schema from its configuration:
- the supported locales;
- the namespaces (each with a bucket, the collection name its records live under);
- relation declarations.

This project models that assembly, the helper functions of `src/utils.js`,
and proves what the helpers guarantee:

- **Locale fields.** `localizedNamesFor(path)` builds the sorted,
  duplicate-free list `path.<locale>`. `localizedValuesFor(val)` fills a
  localized value for every locale. The fallback is the default locale's value
  when that is truthy, otherwise the first value given.
  `localizedAbbreviationsFor(val)` does the same, abbreviates each value, and
  drops empty abbreviations.
- **Unique index.** `uniqueIndexes()` returns `namespace`, `bucket`, `code`
  and one `name.<locale>` per locale, all with value 1.
- **Namespace tables.** `NAMESPACE_MAP`, `NAMESPACE_DICTIONARY`, `DEFAULT_BUCKET`
  and `BUCKETS`.
- **Relations.**
  - `parseNamespaceRelations()` gives one relation per singularised,
    lower-cased namespace.
  - `parseGivenRelations()` normalises the configured relations. It forces
    the reference flags, and `ref` defaults to the model name.
  - `createRelationsSchema()` merges the two.

Modules:
- `JsValues`: JavaScript values, truthiness and `isNotValue`.
- `Objects`: JavaScript objects as ordered property lists. Covers assignment,
  `zipObject`, `mapValues` and the merge behind `mergeObjects`.
- `StringOrder`: the string order and `sortedUniq`.
- `Settings`: the configuration and the borrowed library helpers.
- `Locales`, `Namespaces` and `Relations`: the operations.

Modelling decisions:
- **Configuration as parameters.** The environment is replaced by a `Config`
  value passed to every operation. This covers `DEFAULT_LOCALE`, `LOCALES`,
  `PREDEFINE_MODEL_NAME`, `PREDEFINE_DEFAULT_NAMESPACE` and
  `PREDEFINE_NAMESPACES`. The parsed `PREDEFINE_RELATIONS` object is passed
  as a parameter too.
- **Library helpers as parameters.** `singularize`, `toLower`,
  `collectionNameOf` and `abbreviate` are the function-valued fields of a
  `Library` value. Every result holds for every choice of them.
- **Objects keep insertion order.** An object is its key list plus a map,
  with the invariant `WellFormed`. That invariant holds for every real
  object; every object an operation builds from well-formed inputs is
  proved to keep it (for a merge, by `Objects.MergeSpec`).
- **Nested literals are values.** A JS value that is itself an object,
  such as `autopopulate: { maxDepth: 1 }` inside a relation descriptor, is
  a `Record` of the value type: a plain list of name/value pairs. No
  modelled operation reads, assigns or merges the properties of such a
  nested value (the model's merge is shallow), so it needs neither key
  order bookkeeping nor the `WellFormed` invariant and is compared whole.
  The objects that operations do build or read property by property are
  `Obj` values.
- **Imperative functions are methods.** `localizedValuesFor`,
  `localizedAbbreviationsFor` and `uniqueIndexes` fill a fresh object inside a
  loop. They are methods with loops, proved against the functions that say
  what each locale receives. The rest are functions.

Points where the model pins down behaviour the package's own text states
differently or leaves open:
- **Relation precedence.** `createRelationsSchema` passes the namespace
  relations last to `mergeObjects` (`src/utils.js:256-259`), so for a name
  that is both configured and derived from a namespace, the namespace's
  forced properties win, `ref` included: a configured `ref` is replaced by the
  model name. See `Relations.SchemaSharedNameForced` and
  `Relations.NamespaceBeatsGivenRef`. The model's merge is shallow, so such a
  name takes the whole namespace descriptor (`Relations.SchemaNamespaceWins`);
  see "Left out" for what a recursive merge would keep.
- **Locales can stay empty.** The doc comment of `localizedValuesFor`
  (`src/utils.js:85`) says it ensures every locale has a value. The code
  replaces only null and undefined values (`isNotValue`), and its fallback
  may itself be undefined, an empty string or null. See
  `Locales.ResolvedHasValue` and `Locales.EmptyValueStaysUndefined`.
- **Falsy default value.** The fallback uses the default-locale value only
  when it is truthy (`||`, `src/utils.js:105-106`), not whenever it is present.
- **Unique index keys.** The doc example of `uniqueIndexes`
  (`src/utils.js:160-161`) omits `namespace`. The code always adds it.
- **Given relations.** The doc example of `parseGivenRelations`
  (`src/utils.js:219-221`) shows `{ owner: { ref: 'Party', autopopulate: true } }`.
  The code (`src/utils.js:227-234`) also adds `type`, `index`,
  `aggregatable` and `taggable`, and sets `autopopulate` to `{ maxDepth: 1 }`.
  See `Relations.GivenRelationsNormalised`.

## Model

| member | source | states |
|---|---|---|
| JsValues.Truthy | src/utils.js:106 | the values `a || b` skips are exactly undefined, null, false, 0 and the empty string |
| JsValues.IsNotValue | src/utils.js:108 | `isNotValue` holds of null and undefined (a definition), and a value it holds of is falsy |
| Objects.Empty | src/utils.js:104 | the literal `{}` is well formed, lists no keys and has no properties |
| Objects.Get | src/utils.js:108 | reading `o[k]`: on a well-formed object a value is found exactly when `k` is one of its listed keys |
| Objects.Set | src/utils.js:108 | property assignment `o[k] = v`: an existing key keeps its place and the key list is unchanged, a new key is appended at the end; afterwards `k` reads as `v` and every other key reads as before; a well-formed object stays well formed |
| Objects.MergeSpec | src/utils.js:256-259 | a merge of well-formed objects keeps the first object's keys in place, appends the second's new keys in order, and is well formed |
| Objects.Merge | src/utils.js:227-234 | the value of a key after a merge is the later object's when it has the key, else the earlier one's |
| Objects.MergeObjects | src/utils.js:165 | `mergeObjects(...objects)` of well-formed objects is well formed, and each of its properties reads as in the last object that has it, and is absent when none has it |
| Objects.MergeObjectsOne | src/utils.js:165 | `mergeObjects(x)` is a copy of `x` |
| Objects.MergeObjectsTwo | src/utils.js:256-259 | `mergeObjects(a, b)` is `b` merged over a copy of `a` |
| Objects.MergeIntoEmpty | src/utils.js:193-200 | merging into an empty object yields the object itself |
| Objects.ZipObject | src/utils.js:45-48 | `zipObject` yields a well-formed object whose keys are the names once each, in order of first appearance |
| Objects.ZipObjectGet | src/utils.js:45-48 | a name's value under `zipObject` is the value paired with its last occurrence |
| Objects.ZipObjectMapped | src/utils.js:45-48 | zipping names with a function of the names gives every name its own image |
| Objects.Mapped | src/utils.js:47 | `_.map(names, f)` has one entry per name, in order, and entry `i` is `f` of name `i` |
| Objects.MapValues | src/utils.js:192 | `mapValues` keeps the keys and their order and maps every value |
| Objects.DedupDistinct | src/utils.js:166-168 | a list without repetitions is its own first-occurrence list |
| StringOrder.Less | src/utils.js:79 | the character-by-character order `sortedUniq` sorts by: a string is never below itself, and a proper prefix comes before every longer string it starts; totality, asymmetry and transitivity are `StringOrder.LessTrichotomy` and `StringOrder.LessTransitive` |
| StringOrder.LessTrichotomy | src/utils.js:79 | the string order is total and asymmetric |
| StringOrder.LessTransitive | src/utils.js:79 | the string order is transitive |
| StringOrder.SortedUniq | src/utils.js:79 | `sortedUniq` is strictly ascending and holds exactly the values of its input |
| StringOrder.SortedUnique | src/utils.js:79 | two strictly ascending lists with the same values are equal, so `sortedUniq`'s result is the only sorted duplicate-free arrangement |
| StringOrder.SortedUniqIdempotent | src/utils.js:79 | `sortedUniq` applied twice is `sortedUniq` applied once |
| StringOrder.SortedUniqSameValues | src/utils.js:52 | `sortedUniq` depends only on which values occur |
| StringOrder.SortedUniqOfSorted | src/utils.js:79 | an already strictly sorted list is left unchanged |
| Locales.LocalizedNamesFor | src/utils.js:77-80 | the result is strictly ascending and holds exactly `path + "." + l` for the configured locales `l` |
| Locales.LocalizedFields | src/utils.js:78 | one name `path + "." + l` per configured locale `l`, in configuration order |
| Locales.LocalizedNamesForExample | src/utils.js:73-74 | with locales `en`, `sw` the names of `name` are `['name.en', 'name.sw']` |
| Locales.LessPrefixed | src/utils.js:78 | a shared prefix does not change how two strings compare |
| Locales.DefaultValue | src/utils.js:105-106 | the fallback is the default locale's value when that is truthy, otherwise the first property's value; it is always undefined or one of the input's values |
| Locales.Resolved | src/utils.js:108 | a locale keeps its own value unless that is null or undefined, and otherwise takes the fallback; the result is always undefined or one of the input's values |
| Locales.Lookup | src/utils.js:106-108 | reading `val[key]`: a value other than undefined is the one `val` holds under `key`, and undefined comes out exactly when the property is missing or holds undefined |
| Locales.LocalizedValuesFor | src/utils.js:103-111 | the result has exactly the configured locales as keys, in order of first appearance; a locale whose value is neither null nor undefined keeps it; any other gets the fallback |
| Locales.LocalizedValuesForFallbackExample | src/utils.js:96-97 | `{en:'Tomato'}` fills to `{en:'Tomato', sw:'Tomato'}` |
| Locales.LocalizedValuesForCompleteExample | src/utils.js:99-100 | `{en:'Tomato', sw:'Nyanya'}` fills to itself |
| Locales.ResolvedHasValue | src/utils.js:105-108 | every locale gets a value that is not null or undefined if and only if the fallback is one or every locale has its own |
| Locales.EmptyValueStaysUndefined | src/utils.js:103-108 | with an empty input, every locale is filled with undefined |
| Locales.CompactPrefix | src/utils.js:144 | compacting a prefix of the keys keeps exactly those entries whose value is not empty, unchanged |
| Locales.Compact | src/utils.js:144 | `compact` keeps exactly the entries whose value is not empty, unchanged, and the object stays well formed |
| Locales.CompactOfFilled | src/utils.js:138-144 | compacting an object filled for every locale keeps only locales, each with its non-empty value |
| Locales.LocalizedAbbreviationsFor | src/utils.js:134-145 | the keys are configured locales only; a locale is present exactly when the abbreviation of its resolved value is not empty, and then holds that abbreviation |
| Locales.LocalizedAbbreviationsForExample | src/utils.js:130-131 | `{en:'Tomato', sw:'Nyanya'}` abbreviates to `{en:'T', sw:'N'}` |
| Locales.LocalizedAbbreviationsForFallbackExample | src/utils.js:127-128 | `{en:'Tomato'}` abbreviates to `{en:'T', sw:'T'}` |
| Locales.NameFieldIsNotBase | src/utils.js:165-167 | a localized name never collides with `namespace`, `bucket` or `code` |
| Locales.IndexStep | src/utils.js:166-168 | each loop step appends its localized name unless it is already there, and every value stays 1 |
| Locales.CopyIndexBase | src/utils.js:165 | `mergeObjects({ namespace: 1, bucket: 1, code: 1 })` is a copy of the literal |
| Locales.IndexBaseObject | src/utils.js:165 | the literal has the keys `namespace`, `bucket`, `code` in that order, each 1 |
| Locales.UniqueIndexes | src/utils.js:164-170 | the keys are `namespace`, `bucket`, `code`, then the localized names of `name` in configuration order; the key set is the fixed three plus `localizedNamesFor('name')`; every value is 1 |
| Namespaces.NamespaceMap | src/utils.js:41-43 | one entry per configured namespace, in order, each paired with its own bucket |
| Namespaces.NamespaceDictionary | src/utils.js:45-48 | each configured namespace appears once, in order of first appearance, and maps to its bucket |
| Namespaces.DictionaryAgreesWithMap | src/utils.js:41-48 | each entry of the namespace map is an entry of the dictionary, and each dictionary entry is in the map |
| Namespaces.Buckets | src/utils.js:52 | the buckets are strictly ascending and are exactly the buckets of the configured namespaces |
| Namespaces.DefaultBucket | src/utils.js:50 | the default bucket is the bucket the namespace dictionary and the namespace map give the default namespace when it is configured |
| Namespaces.DefaultBucketListed | src/utils.js:50-52 | the default bucket is among the buckets when the default namespace is configured |
| Namespaces.DefaultsBuckets | src/utils.js:31-52 | with no configuration, the default bucket is the only bucket |
| Relations.Forced | src/utils.js:227-234 | the forced descriptor literal is well formed, with its six properties in written order |
| Relations.ForcedSpec | src/utils.js:193-200 | the forced literal is an indexed, aggregatable, taggable ObjectId reference, autopopulated to depth 1, with the given `ref` |
| Relations.NamespacePaths | src/utils.js:190 | one derived name per namespace, in position: the lower-cased singular form of that namespace; and no other name |
| Relations.NamespaceDescriptor | src/utils.js:192-201 | a namespace relation has the forced flags, refers to the model name and has exactly the forced keys |
| Relations.RefOf | src/utils.js:229 | the reference is the configured `ref` when that is truthy, and otherwise the model name |
| Relations.ParseNamespaceRelations | src/utils.js:189-203 | one relation per distinct derived name, in order of first appearance, and no other; each is the namespace descriptor |
| Relations.GivenDescriptor | src/utils.js:226-235 | a configured relation keeps the forced flags; `ref` is its own when truthy, else the model name; every other property keeps the configured value |
| Relations.GivenDescriptorIsMergeObjects | src/utils.js:227-234 | for a plain object, the descriptor equals `mergeObjects(relation, forced)`, with the relation's keys first and then the forced keys it lacks |
| Relations.ParseGivenRelations | src/utils.js:224-237 | the configured names are kept in order, well formed, each mapped to its descriptor |
| Relations.GivenRelationsNormalised | src/utils.js:224-237 | every configured relation comes out with the forced flags, the `ref` rule, and every other property unchanged |
| Relations.CreateRelationsSchema | src/utils.js:255-259 | the merged relations are well formed; the configured names come first, then the namespace names not configured |
| Relations.SchemaIsMergeObjects | src/utils.js:256-259 | the merged relations equal `mergeObjects(parseGivenRelations(), parseNamespaceRelations())` |
| Relations.SchemaNames | src/utils.js:256-259 | the merged relations cover exactly the configured names and the namespace names |
| Relations.SchemaNamespaceWins | src/utils.js:256-259 | a namespace name takes the namespace descriptor even when it is also configured |
| Relations.SchemaSharedNameForced | src/utils.js:256-259 | a name both configured and derived from a namespace carries the forced flags and the model name as `ref` |
| Relations.SchemaGivenKept | src/utils.js:256-259 | a name that is only configured keeps its normalised descriptor |
| Relations.SchemaRelationsForced | src/utils.js:226-259 | every merged relation carries the forced flags |
| Relations.GivenRefKept | src/utils.js:219-221 | a configured `owner` with `ref: 'Party'` keeps that ref in the given relations |
| Relations.NamespaceBeatsGivenRef | src/utils.js:256-259 | when a namespace also derives `owner`, the merged relation refers to the model name, not `'Party'` |

## Left out

- Environment reading (`getString`, `getStringSet`, `getObject`, src/utils.js:18-39 and 225) and the JSON parsing of `PREDEFINE_RELATIONS`. They are replaced by the `Config` and relations parameters; `Settings.Defaults` records the default values.
- `COLLECTION_NAME`, `SCHEMA_OPTIONS` and `OPTION_AUTOPOPULATE`: constants that no modelled operation uses.
- `createSubSchema` and the `ObjectId` schema type (src/utils.js:260). Both come from the mongoose helpers. The model stops at the merged relation map, and `ObjectId` is a single value.
- `copyInstance` (src/utils.js:106, 137) is taken as the identity. Converting a mongoose document to a plain object is outside the model.
- The internals of `singularize`, `toLower`, `collectionNameOf` and `abbreviate`. They are arbitrary functions, so all results hold for any of them.
- The HTTP router, the CRUD operations, persistence, and the duplicate-key, not-found and soft-delete behaviour. These all depend on a live database.
- `Objects.Merge`: modelled as a shallow, last-wins copy of top-level properties. lodash's `merge` recurses into nested objects and arrays, and writes an undefined source value only where the destination lacks the key; the model writes it either way, which differs only for a key the destination already holds. The two differ wherever both objects hold a plain object under the same key: in `parseGivenRelations`, for an `autopopulate` object a user configures alongside the forced one; and in `createRelationsSchema`, for every name present in both relation maps.
- `Relations.SchemaNamespaceWins` and `Relations.CreateRelationsSchema`: for a name that is both configured and derived from a namespace (for example the namespace `Setting` and a configured `setting: { select: 'name' }`), the model gives the whole namespace descriptor and drops the configured extras such as `select`. A recursive merge would keep those extras, in the configured relation's key order, and take only the forced keys from the namespace descriptor. Under either merge `type`, `index`, `aggregatable`, `taggable` and `ref` take the namespace's values and `autopopulate.maxDepth` is 1; only the shallow merge also drops any further properties of a configured `autopopulate`, which `Relations.SchemaSharedNameForced` relies on when it states `HasForcedFlags`.
- `Locales.LocalizedValuesFor` and `Locales.LocalizedAbbreviationsFor`: `val` is always an object here. The source's default `{}` covers only an undefined argument. A `null` argument makes the source throw a TypeError at `val[DEFAULT_LOCALE]` (src/utils.js:106, 137). A string argument is read character by character by `_.values`, so `'Tomato'` falls back to `'T'`. Neither case is modelled.
- `Locales.Compact`: drops properties whose value is the empty string. That is the only empty form an abbreviation (a string) takes here. `compact`'s handling of other values is not modelled.
- `Locales.LocalizedAbbreviationsFor`: states which locales the result holds and their values, but not the order of its keys.
- `StringOrder.SortedUniq`: orders strings by character code. JavaScript compares UTF-16 code units, and the two orders differ for characters outside the Basic Multilingual Plane. Removal of empty strings by the library's `sortedUniq` is not modelled.
- `Objects.Set`: JavaScript enumerates integer-like property names (such as `'2024'`) in ascending numeric order before all others. The model keeps plain insertion order for every name, so it assumes no locale, namespace-derived path or configured relation name is integer-like. For such names the key orders stated by `Relations.ParseNamespaceRelations`, `Relations.CreateRelationsSchema`, `Namespaces.NamespaceDictionary` and `Locales.LocalizedValuesFor` (and by the members built on `Objects.Set`, `Objects.ZipObject` and `Objects.Merge`) differ from JavaScript's: `PREDEFINE_NAMESPACES=Setting,2024` gives the paths `['setting', '2024']`, which JavaScript's `_.zipObject` lists as `'2024'` first.
- `JsValues.IsNotValue`: taken to mean exactly "null or undefined". The helper comes from `@lykmapipo/common`, which is not part of this model, so this definition is assumed rather than derived; the fallback rules of `Locales.Resolved`, `Locales.LocalizedValuesFor` and `Locales.LocalizedAbbreviationsFor` rest on it.
- Relation entries that are not plain objects, prototype properties, and numbers other than integers.

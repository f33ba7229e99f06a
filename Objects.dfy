/** Plain JavaScript objects, and the object helpers the schema assembly
    uses: property assignment, lodash's `zipObject` and `mapValues`, and the
    merge behind `mergeObjects`. */
module Objects {

  datatype Option<T> = None | Some(value: T)

  /** No element occurs twice. */
  predicate Distinct(s: seq<string>)
  {
    |s| == 0 || (s[|s| - 1] !in s[..|s| - 1] && Distinct(s[..|s| - 1]))
  }

  /** A prefix one longer is the prefix with the next element appended. */
  lemma PrefixSnoc(s: seq<string>, i: nat)
    requires i < |s|
    ensures s[..i + 1] == s[..i] + [s[i]]
  {
  }

  lemma ConcatAssoc(a: seq<string>, b: seq<string>, c: seq<string>)
    ensures (a + b) + c == a + (b + c)
  {
  }

  lemma DistinctSnoc(s: seq<string>, x: string)
    ensures Distinct(s) && x !in s ==> Distinct(s + [x])
  {
    assert (s + [x])[..|s|] == s;
  }

  /** In a sequence without repetitions, an element does not occur before
      its own position. */
  lemma {:induction false} DistinctAt(s: seq<string>, i: nat)
    requires Distinct(s) && i < |s|
    ensures s[i] !in s[..i]
  {
    var n := |s| - 1;
    if i < n {
      DistinctAt(s[..n], i);
      assert s[..n][..i] == s[..i];
    }
  }

  /** An object: its property names in insertion (enumeration) order, and the
      value of each property. */
  datatype Obj<V> = Object(keys: seq<string>, values: map<string, V>)

  /** The representation invariant: `keys` lists every property exactly once. */
  ghost predicate WellFormed<V>(o: Obj<V>)
  {
    Distinct(o.keys) && forall k :: k in o.values <==> k in o.keys
  }

  function Empty<V>(): (r: Obj<V>)
    ensures WellFormed(r)
    ensures r.keys == [] && forall k :: Get(r, k) == None
  {
    Object([], map[])
  }

  /** `o[k]`: the value of property `k`, or None when `o` has no such property. */
  function Get<V>(o: Obj<V>, k: string): (r: Option<V>)
    ensures WellFormed(o) ==> (r.Some? <==> k in o.keys)
  {
    if k in o.values then Some(o.values[k]) else None
  }

  /** Property assignment `o[k] = v`: an existing property keeps its place and
      takes the new value; a new property goes at the end. */
  function Set<V>(o: Obj<V>, k: string, v: V): (r: Obj<V>)
    ensures k in o.values ==> r.keys == o.keys
    ensures k !in o.values ==> r.keys == o.keys + [k]
    ensures forall j :: Get(r, j) == if j == k then Some(v) else Get(o, j)
    ensures WellFormed(o) ==> WellFormed(r)
  {
    DistinctSnoc(o.keys, k);
    Object(if k in o.values then o.keys else o.keys + [k], o.values[k := v])
  }

  /** The elements of `s` in order, each kept at its first occurrence. */
  function Dedup(s: seq<string>): (r: seq<string>)
    ensures forall x :: x in r <==> x in s
    ensures Distinct(r)
  {
    if |s| == 0 then []
    else
      var d := Dedup(s[..|s| - 1]);
      var x := s[|s| - 1];
      assert s == s[..|s| - 1] + [x];
      DistinctSnoc(d, x);
      if x in d then d else d + [x]
  }

  /** Dedup of a longer prefix: the next element is appended unless seen. */
  lemma DedupSnoc(s: seq<string>, i: nat)
    requires i < |s|
    ensures Dedup(s[..i + 1]) == if s[i] in s[..i] then Dedup(s[..i]) else Dedup(s[..i]) + [s[i]]
  {
    assert s[..i + 1][..i] == s[..i];
  }

  /** A sequence without repetitions is its own Dedup. */
  lemma {:induction false} DedupDistinct(s: seq<string>)
    requires Distinct(s)
    ensures Dedup(s) == s
  {
    if |s| > 0 {
      var n := |s| - 1;
      DedupDistinct(s[..n]);
      assert s[..n + 1] == s;
      DedupSnoc(s, n);
    }
  }

  /** The elements of `ks` that are not in `present`, in order. */
  function Absent(ks: seq<string>, present: seq<string>): (r: seq<string>)
    ensures forall x :: x in r <==> x in ks && x !in present
  {
    if |ks| == 0 then []
    else
      var n := |ks| - 1;
      assert ks == ks[..n] + [ks[n]];
      Absent(ks[..n], present) + if ks[n] in present then [] else [ks[n]]
  }

  lemma AbsentSnoc(ks: seq<string>, x: string, present: seq<string>)
    ensures Absent(ks + [x], present) == Absent(ks, present) + if x in present then [] else [x]
  {
    assert (ks + [x])[..|ks|] == ks;
  }

  lemma {:induction false} AbsentNone(ks: seq<string>)
    ensures Absent(ks, []) == ks
  {
    if |ks| > 0 {
      AbsentNone(ks[..|ks| - 1]);
      assert ks == ks[..|ks| - 1] + [ks[|ks| - 1]];
    }
  }

  /** The first `n` properties of `b` assigned, in order, onto `a`. */
  function MergePrefix<V>(a: Obj<V>, b: Obj<V>, n: nat): Obj<V>
    requires WellFormed(b) && n <= |b.keys|
  {
    if n == 0 then a else Set(MergePrefix(a, b, n - 1), b.keys[n - 1], b.values[b.keys[n - 1]])
  }

  /** Copies every property of `b`, in order, onto `a` by assignment: the
      shallow form of `_.merge(a, b)`. A property of `b` takes `b`'s value
      (the later object wins) and any other keeps `a`'s. */
  function Merge<V>(a: Obj<V>, b: Obj<V>): (r: Obj<V>)
    requires WellFormed(b)
    ensures forall k :: Get(r, k) == if k in b.values then Get(b, k) else Get(a, k)
  {
    MergePrefixGetAll(a, b);
    MergePrefix(a, b, |b.keys|)
  }

  /** One more step of a merge appends the next property of `b` exactly when
      `a` lacks it. */
  lemma MergePrefixStep<V>(a: Obj<V>, b: Obj<V>, n: nat)
    requires WellFormed(a) && WellFormed(b) && 0 < n <= |b.keys|
    ensures MergePrefix(a, b, n).keys == MergePrefix(a, b, n - 1).keys + if b.keys[n - 1] in a.keys then [] else [b.keys[n - 1]]
  {
    var x := b.keys[n - 1];
    var before := MergePrefix(a, b, n - 1);
    assert x in before.values <==> x in a.keys by {
      DistinctAt(b.keys, n - 1);
      MergePrefixGet(a, b, n - 1, x);
      assert Get(before, x) == Get(a, x);
    }
    assert MergePrefix(a, b, n) == Set(before, x, b.values[x]);
  }

  lemma {:induction false} MergePrefixKeys<V>(a: Obj<V>, b: Obj<V>, n: nat)
    requires WellFormed(a) && WellFormed(b) && n <= |b.keys|
    ensures MergePrefix(a, b, n).keys == a.keys + Absent(b.keys[..n], a.keys)
  {
    if n > 0 {
      var x := b.keys[n - 1];
      var rest := Absent(b.keys[..n - 1], a.keys);
      var t := if x in a.keys then [] else [x];
      assert Absent(b.keys[..n], a.keys) == rest + t by {
        assert b.keys[..n] == b.keys[..n - 1] + [x];
        AbsentSnoc(b.keys[..n - 1], x, a.keys);
      }
      var before := MergePrefix(a, b, n - 1).keys;
      assert before == a.keys + rest by {
        MergePrefixKeys(a, b, n - 1);
      }
      assert MergePrefix(a, b, n).keys == before + t by {
        MergePrefixStep(a, b, n);
      }
      ConcatAssoc(a.keys, rest, t);
    } else {
      assert b.keys[..0] == [];
    }
  }

  lemma {:induction false} MergePrefixWellFormed<V>(a: Obj<V>, b: Obj<V>, n: nat)
    requires WellFormed(a) && WellFormed(b) && n <= |b.keys|
    ensures WellFormed(MergePrefix(a, b, n))
  {
    if n > 0 {
      MergePrefixWellFormed(a, b, n - 1);
    }
  }

  lemma {:induction false} MergePrefixGet<V>(a: Obj<V>, b: Obj<V>, n: nat, k: string)
    requires WellFormed(b) && n <= |b.keys|
    ensures Get(MergePrefix(a, b, n), k) == if k in b.keys[..n] then Get(b, k) else Get(a, k)
  {
    if n > 0 {
      var x := b.keys[n - 1];
      var before := MergePrefix(a, b, n - 1);
      assert MergePrefix(a, b, n) == Set(before, x, b.values[x]);
      assert k in b.keys[..n] <==> k == x || k in b.keys[..n - 1] by {
        PrefixSnoc(b.keys, n - 1);
      }
      MergePrefixGet(a, b, n - 1, k);
    }
  }

  lemma MergePrefixGetAll<V>(a: Obj<V>, b: Obj<V>)
    requires WellFormed(b)
    ensures forall k :: Get(MergePrefix(a, b, |b.keys|), k) == if k in b.values then Get(b, k) else Get(a, k)
  {
    assert b.keys[..|b.keys|] == b.keys;
    forall k ensures Get(MergePrefix(a, b, |b.keys|), k) == if k in b.values then Get(b, k) else Get(a, k) {
      MergePrefixGet(a, b, |b.keys|, k);
    }
  }

  /** A merge keeps the properties of `a` in place and appends those of `b`
      that `a` lacks, in `b`'s order, and stays well formed. */
  lemma MergeSpec<V>(a: Obj<V>, b: Obj<V>)
    requires WellFormed(a) && WellFormed(b)
    ensures Merge(a, b).keys == a.keys + Absent(b.keys, a.keys)
    ensures WellFormed(Merge(a, b))
  {
    MergePrefixKeys(a, b, |b.keys|);
    MergePrefixWellFormed(a, b, |b.keys|);
    assert b.keys[..|b.keys|] == b.keys;
  }

  /** The value of `k` in the last of `objects` that has it, if any. */
  function LastWith<V>(objects: seq<Obj<V>>, k: string): Option<V>
  {
    if |objects| == 0 then None
    else
      var later := LastWith(objects[1..], k);
      if later.Some? then later else Get(objects[0], k)
  }

  /** `mergeObjects(...objects)`: every object merged, left to right, into a
      fresh empty object, so each property reads as in the last object that
      has it. */
  function MergeObjects<V>(objects: seq<Obj<V>>): (r: Obj<V>)
    requires forall i :: 0 <= i < |objects| ==> WellFormed(objects[i])
    ensures WellFormed(r)
    ensures forall k :: Get(r, k) == LastWith(objects, k)
  {
    MergeFrom(Empty(), objects)
  }

  function MergeFrom<V>(acc: Obj<V>, objects: seq<Obj<V>>): (r: Obj<V>)
    requires WellFormed(acc)
    requires forall i :: 0 <= i < |objects| ==> WellFormed(objects[i])
    ensures WellFormed(r)
    ensures forall k :: Get(r, k) == if LastWith(objects, k).Some? then LastWith(objects, k) else Get(acc, k)
    decreases |objects|
  {
    if |objects| == 0 then acc
    else
      MergeSpec(acc, objects[0]);
      MergeFrom(Merge(acc, objects[0]), objects[1..])
  }

  /** Merging into an empty object copies. */
  lemma MergeIntoEmpty<V>(x: Obj<V>)
    requires WellFormed(x)
    ensures Merge(Empty(), x) == x
  {
    var e: Obj<V> := Empty();
    var r := Merge(e, x);
    assert r.keys == x.keys by {
      MergeSpec(e, x);
      assert r.keys == [] + Absent(x.keys, []);
      AbsentNone(x.keys);
    }
    assert r.values == x.values by {
      forall k ensures k in r.values <==> k in x.values {
        assert Get(r, k) == Get(x, k);
      }
      forall k | k in x.values ensures r.values[k] == x.values[k] {
        assert Get(r, k) == Get(x, k);
      }
    }
  }

  /** `mergeObjects(x)` is a copy of `x`. */
  lemma MergeObjectsOne<V>(x: Obj<V>)
    requires WellFormed(x)
    ensures MergeObjects([x]) == x
  {
    var e: Obj<V> := Empty();
    MergeIntoEmpty(x);
    assert [x][1..] == [];
    assert MergeObjects([x]) == MergeFrom(Merge(e, x), []);
  }

  /** `mergeObjects(a, b)` is `b` merged over a copy of `a`. */
  lemma MergeObjectsTwo<V>(a: Obj<V>, b: Obj<V>)
    requires WellFormed(a) && WellFormed(b)
    ensures MergeObjects([a, b]) == Merge(a, b)
  {
    var e: Obj<V> := Empty();
    MergeIntoEmpty(a);
    assert [a, b][1..] == [b];
    assert [b][1..] == [];
    assert MergeObjects([a, b]) == MergeFrom(Merge(e, a), [b]);
    MergeSpec(a, b);
    assert MergeFrom(Merge(e, a), [b]) == MergeFrom(Merge(a, b), []);
  }

  /** `_.zipObject(ks, vs)`: assigns `vs[i]` to property `ks[i]` in order, so a
      repeated name keeps its first place and its last value. */
  function ZipObject<V>(ks: seq<string>, vs: seq<V>): (r: Obj<V>)
    requires |ks| == |vs|
    ensures WellFormed(r)
    ensures r.keys == Dedup(ks)
    decreases |ks|
  {
    if |ks| == 0 then Empty()
    else
      var n := |ks| - 1;
      assert ks[..n + 1] == ks;
      DedupSnoc(ks, n);
      Set(ZipObject(ks[..n], vs[..n]), ks[n], vs[n])
  }

  /** Reading a zipped object: the last pair decides its own name, and any
      other name reads as in the zip of the shorter lists. */
  lemma ZipObjectGetStep<V>(ks: seq<string>, vs: seq<V>, x: string)
    requires |ks| == |vs| && 0 < |ks|
    ensures Get(ZipObject(ks, vs), x)
         == if x == ks[|ks| - 1] then Some(vs[|ks| - 1]) else Get(ZipObject(ks[..|ks| - 1], vs[..|ks| - 1]), x)
  {
    var n := |ks| - 1;
    assert ZipObject(ks, vs) == Set(ZipObject(ks[..n], vs[..n]), ks[n], vs[n]);
  }

  /** The value zipObject gives a name is the one paired with its last
      occurrence. */
  lemma {:induction false} ZipObjectGet<V>(ks: seq<string>, vs: seq<V>, i: nat)
    requires |ks| == |vs| && i < |ks|
    requires forall j :: i < j < |ks| ==> ks[j] != ks[i]
    ensures Get(ZipObject(ks, vs), ks[i]) == Some(vs[i])
  {
    var n := |ks| - 1;
    ZipObjectGetStep(ks, vs, ks[i]);
    if i < n {
      var ks', vs' := ks[..n], vs[..n];
      assert ks'[i] == ks[i] && vs'[i] == vs[i];
      assert forall j :: i < j < |ks'| ==> ks'[j] != ks'[i] by {
        forall j | i < j < |ks'| ensures ks'[j] != ks'[i] {
          assert ks'[j] == ks[j];
        }
      }
      ZipObjectGet(ks', vs', i);
      assert Get(ZipObject(ks', vs'), ks[i]) == Some(vs[i]);
    } else {
      assert i == n;
    }
  }

  /** One step of filling an object with `f(k)` for each key `k` of `ks` in
      turn: after `i` steps the object has the keys of `ks[..i]`, in order of
      first appearance, each with its value under `f`. */
  ghost predicate FilledUpTo<V>(o: Obj<V>, ks: seq<string>, i: nat, f: string -> V)
    requires i <= |ks|
  {
    WellFormed(o) && o.keys == Dedup(ks[..i]) && forall k :: k in ks[..i] ==> Get(o, k) == Some(f(k))
  }

  lemma FillStep<V>(o: Obj<V>, ks: seq<string>, i: nat, f: string -> V)
    requires i < |ks| && FilledUpTo(o, ks, i, f)
    ensures FilledUpTo(Set(o, ks[i], f(ks[i])), ks, i + 1, f)
  {
    var x := ks[i];
    var r := Set(o, x, f(x));
    assert r.keys == Dedup(ks[..i + 1]) by {
      assert o.keys == [] + Dedup(ks[..i]);
      SetAfterDedup(o, [], ks, i, f(x));
    }
    forall k | k in ks[..i + 1]
      ensures Get(r, k) == Some(f(k))
    {
      PrefixSnoc(ks, i);
    }
  }

  /** Assigning the next name of `ks` to an object whose keys are `base`
      followed by the names so far appends it unless it was already seen. */
  lemma SetAfterDedup<V>(o: Obj<V>, base: seq<string>, ks: seq<string>, i: nat, v: V)
    requires i < |ks| && ks[i] !in base && WellFormed(o) && o.keys == base + Dedup(ks[..i])
    ensures Set(o, ks[i], v).keys == base + Dedup(ks[..i + 1])
  {
    var x := ks[i];
    var d := Dedup(ks[..i]);
    assert x in o.values <==> x in ks[..i] by {
      assert x in o.values <==> x in base + d;
    }
    DedupSnoc(ks, i);
    ConcatAssoc(base, d, [x]);
  }

  lemma FillDone<V>(o: Obj<V>, ks: seq<string>, f: string -> V)
    requires FilledUpTo(o, ks, |ks|, f)
    ensures WellFormed(o) && o.keys == Dedup(ks)
    ensures forall k :: k in ks ==> Get(o, k) == Some(f(k))
  {
    assert ks[..|ks|] == ks;
  }

  /** `_.map(ks, f)`. */
  function Mapped<V>(ks: seq<string>, f: string -> V): (r: seq<V>)
    ensures |r| == |ks| && forall i :: 0 <= i < |ks| ==> r[i] == f(ks[i])
  {
    seq(|ks|, i requires 0 <= i < |ks| => f(ks[i]))
  }

  /** Zipping names with a function of the names gives every name its own
      image, whatever its repetitions. */
  lemma ZipObjectMapped<V>(ks: seq<string>, f: string -> V)
    ensures forall k :: k in ks ==> Get(ZipObject(ks, Mapped(ks, f)), k) == Some(f(k))
  {
    forall k | k in ks
      ensures Get(ZipObject(ks, Mapped(ks, f)), k) == Some(f(k))
    {
      var i := LastOccurrence(ks, k);
      ZipObjectGet(ks, Mapped(ks, f), i);
    }
  }

  /** Every element of a sequence has a last occurrence. */
  lemma {:induction false} LastOccurrence(ks: seq<string>, k: string) returns (i: nat)
    requires k in ks
    ensures i < |ks| && ks[i] == k
    ensures forall j :: i < j < |ks| ==> ks[j] != k
  {
    var n := |ks| - 1;
    if ks[n] == k {
      i := n;
    } else {
      assert k in ks[..n] by {
        assert ks == ks[..n] + [ks[n]];
      }
      i := LastOccurrence(ks[..n], k);
    }
  }

  /** `_.mapValues(o, f)`: same keys in the same order, each value mapped. */
  function MapValues<V, W>(o: Obj<V>, f: V -> W): (r: Obj<W>)
    ensures r.keys == o.keys
    ensures forall k :: Get(r, k) == if k in o.values then Some(f(o.values[k])) else None
    ensures WellFormed(o) ==> WellFormed(r)
  {
    Object(o.keys, map k | k in o.values :: f(o.values[k]))
  }
}

/**
 * Python dictionaries with string keys, as the scraper uses them: a
 * mapping that also remembers the order in which its keys were first
 * inserted (the order a `for key in d` loop visits them).
 */
module Dicts {

  predicate Distinct<T(==)>(s: seq<T>)
  {
    forall i, j :: 0 <= i < j < |s| ==> s[i] != s[j]
  }

  /**
   * No key occurs twice: each key is new to the keys before it. Stated
   * recursively so that it unfolds only where a proof asks for it.
   */
  predicate NoRepeats(s: seq<string>)
  {
    |s| == 0 || (s[|s| - 1] !in s[..|s| - 1] && NoRepeats(s[..|s| - 1]))
  }

  lemma {:induction false} NoRepeatsDistinct(s: seq<string>)
    ensures NoRepeats(s) <==> Distinct(s)
    decreases |s|
  {
    if |s| > 0 {
      var front := s[..|s| - 1];
      NoRepeatsDistinct(front);
      assert forall i :: 0 <= i < |front| ==> front[i] == s[i];
      if Distinct(s) {
        assert s[|s| - 1] !in front by {
          forall i | 0 <= i < |front| ensures front[i] != s[|s| - 1] {
            assert i < |s| - 1;
          }
        }
      }
    }
  }

  /** Without repeats, no key occurs before its own position. */
  lemma {:induction false} NoRepeatsPrefix(s: seq<string>, n: nat)
    requires NoRepeats(s) && n < |s|
    ensures s[n] !in s[..n]
    decreases |s|
  {
    if n < |s| - 1 {
      var front := s[..|s| - 1];
      NoRepeatsPrefix(front, n);
      assert front[..n] == s[..n];
    }
  }

  /** Without repeats, two positions hold two different keys. */
  lemma NoRepeatsAt(s: seq<string>, i: nat, j: nat)
    requires NoRepeats(s) && i < |s| && j < |s| && i != j
    ensures s[i] != s[j]
  {
    if i < j {
      NoRepeatsPrefix(s, j);
      assert s[..j][i] == s[i];
    } else {
      NoRepeatsPrefix(s, i);
      assert s[..i][j] == s[j];
    }
  }

  /** Two lists without repeats and without a common key concatenate to one without repeats. */
  lemma {:induction false} NoRepeatsConcat(a: seq<string>, b: seq<string>)
    requires NoRepeats(a) && NoRepeats(b)
    requires forall k :: k in b ==> k !in a
    ensures NoRepeats(a + b)
    decreases |b|
  {
    if |b| > 0 {
      var front := b[..|b| - 1];
      assert forall k :: k in front ==> k in b;
      NoRepeatsConcat(a, front);
      assert (a + b)[..|a + b| - 1] == a + front;
    } else {
      assert a + b == a;
    }
  }

  /**
   * A dictionary: its keys in insertion order and the mapping itself. The
   * operations below keep the two in step (`WellFormed`); the invariant is
   * kept apart from the type so that only the proofs that use it see it.
   */
  datatype Dict<V> = Dict(keys: seq<string>, vals: map<string, V>)

  /** The key list names each key of the mapping exactly once. */
  ghost predicate WellFormed<V>(d: Dict<V>)
  {
    && NoRepeats(d.keys)
    && (forall k :: k in d.vals <==> k in d.keys)
  }

  function Empty<V>(): (r: Dict<V>)
    ensures r.keys == [] && r.vals == map[]
  {
    Dict([], map[])
  }

  /** `{k: v}` */
  function Single<V>(k: string, v: V): (r: Dict<V>)
    ensures r.keys == [k] && r.vals == map[k := v]
  {
    Dict([k], map[k := v])
  }

  /** `d[k] = v`: an existing key keeps its place, a new key goes last. */
  function Put<V>(d: Dict<V>, k: string, v: V): (r: Dict<V>)
    ensures r.vals == d.vals[k := v]
    ensures r.keys == if k in d.vals then d.keys else d.keys + [k]
  {
    if k in d.vals then Dict(d.keys, d.vals[k := v]) else Dict(d.keys + [k], d.vals[k := v])
  }

  /** The keys of `ks` that `m` lacks, in their order in `ks`. */
  function FreshKeys<V>(ks: seq<string>, m: map<string, V>): (r: seq<string>)
    ensures forall k :: k in r <==> k in ks && k !in m
    decreases |ks|
  {
    if |ks| == 0 then []
    else
      var k := ks[|ks| - 1];
      var front := FreshKeys(ks[..|ks| - 1], m);
      assert forall j :: j in ks <==> j == k || j in ks[..|ks| - 1] by {
        assert ks == ks[..|ks| - 1] + [k];
      }
      if k in m then front else front + [k]
  }

  /** One key more of `ks` is fresh exactly when `m` lacks it. */
  lemma FreshKeysTake<V>(ks: seq<string>, n: nat, m: map<string, V>)
    requires n < |ks|
    ensures FreshKeys(ks[..n + 1], m) == FreshKeys(ks[..n], m) + (if ks[n] in m then [] else [ks[n]])
  {
    assert ks[..n + 1][..n] == ks[..n];
  }

  /**
   * Python's `a | b`: every key of either, `b`'s value winning on shared
   * keys, `a`'s keys first and then `b`'s new keys in `b`'s order.
   */
  function Union<V>(a: Dict<V>, b: Dict<V>): (r: Dict<V>)
    ensures r.vals == a.vals + b.vals
    ensures r.keys == a.keys + FreshKeys(b.keys, a.vals)
  {
    Dict(a.keys + FreshKeys(b.keys, a.vals), a.vals + b.vals)
  }

  lemma EmptyWellFormed<V>()
    ensures WellFormed(Empty<V>())
  {
  }

  lemma SingleWellFormed<V>(k: string, v: V)
    ensures WellFormed(Single(k, v))
  {
    assert [k][..0] == [];
  }

  /** Assignment keeps every key listed once. */
  lemma PutWellFormed<V>(d: Dict<V>, k: string, v: V)
    requires WellFormed(d)
    ensures WellFormed(Put(d, k, v))
  {
    if k !in d.vals {
      assert (d.keys + [k])[..|d.keys|] == d.keys;
    }
  }

  /** The new keys of a record without repeats come without repeats. */
  lemma {:induction false} FreshKeysNoRepeats<V>(ks: seq<string>, m: map<string, V>)
    requires NoRepeats(ks)
    ensures NoRepeats(FreshKeys(ks, m))
    decreases |ks|
  {
    if |ks| > 0 {
      var front := FreshKeys(ks[..|ks| - 1], m);
      FreshKeysNoRepeats(ks[..|ks| - 1], m);
      assert (front + [ks[|ks| - 1]])[..|front|] == front;
    }
  }

  /** The union of two well-formed dictionaries lists every key once. */
  lemma UnionWellFormed<V>(a: Dict<V>, b: Dict<V>)
    requires WellFormed(a) && WellFormed(b)
    ensures WellFormed(Union(a, b))
  {
    FreshKeysNoRepeats(b.keys, a.vals);
    NoRepeatsConcat(a.keys, FreshKeys(b.keys, a.vals));
  }
}

/**
 A JavaScript plain object with string keys, seen as the ordered list of its
 own enumerable properties. Writing a property that exists replaces its value
 where it stands; writing a new one appends it. lodash `fromPairs` and the
 object spread `{...a, ...b}` are both a left-to-right run of such writes.
 */
module Assoc {

  datatype Option<T> = None | Some(value: T)

  type Entries<V> = seq<(string, V)>

  /** The property names, in enumeration order. */
  function Keys<V>(m: Entries<V>): (ks: seq<string>)
    ensures |ks| == |m|
    ensures forall i :: 0 <= i < |m| ==> ks[i] == m[i].0
  {
    if m == [] then [] else [m[0].0] + Keys(m[1..])
  }

  predicate Distinct(ks: seq<string>) {
    forall i, j :: 0 <= i < j < |ks| ==> ks[i] != ks[j]
  }

  /** Every object has this shape: no property name occurs twice. */
  predicate KeysUnique<V>(m: Entries<V>) {
    Distinct(Keys(m))
  }

  /** Reading property `k`: the value stored under it, if any. */
  function Get<V>(m: Entries<V>, k: string): (r: Option<V>)
    ensures r.Some? <==> k in Keys(m)
    ensures r.Some? ==> (k, r.value) in m
  {
    if m == [] then None
    else if m[0].0 == k then Some(m[0].1)
    else Get(m[1..], k)
  }

  /** The property write `m[k] = v`. */
  function Assign<V>(m: Entries<V>, k: string, v: V): (r: Entries<V>)
    ensures Keys(r) == if k in Keys(m) then Keys(m) else Keys(m) + [k]
    ensures k !in Keys(m) ==> r == m + [(k, v)]
  {
    if m == [] then [(k, v)]
    else if m[0].0 == k then
      assert Keys([(k, v)] + m[1..]) == [k] + Keys(m[1..]);
      [(k, v)] + m[1..]
    else
      var rest := Assign(m[1..], k, v);
      assert Keys([m[0]] + rest) == [m[0].0] + Keys(rest);
      [m[0]] + rest
  }

  /** The writes `m[p.0] = p.1` for every pair `p`, in order. */
  function AssignAll<V>(m: Entries<V>, pairs: seq<(string, V)>): (r: Entries<V>)
    ensures |m| <= |r| <= |m| + |pairs|
    decreases |pairs|
  {
    if pairs == [] then m
    else AssignAll(Assign(m, pairs[0].0, pairs[0].1), pairs[1..])
  }

  /** lodash `fromPairs`: a fresh object written with every pair in order. */
  function FromPairs<V>(pairs: seq<(string, V)>): (r: Entries<V>)
    ensures KeysUnique(r)
    ensures |r| <= |pairs|
    ensures Keys(r) == FreshKeys([], Keys(pairs))
  {
    AssignAllKeys([], pairs);
    AssignAllKeepsKeysUnique([], pairs);
    AssignAll([], pairs)
  }

  /** The names in `ks` that are not in `seen`, each once, in the order of their first occurrence. */
  function FreshKeys(seen: seq<string>, ks: seq<string>): (r: seq<string>)
    ensures forall k :: k in r <==> k in ks && k !in seen
    ensures Distinct(r)
    ensures |r| <= |ks|
    decreases |ks|
  {
    if ks == [] then []
    else if ks[0] in seen then FreshKeys(seen, ks[1..])
    else
      var r := FreshKeys(seen + [ks[0]], ks[1..]);
      DistinctCons(ks[0], r);
      [ks[0]] + r
  }

  lemma DistinctCons(k: string, ks: seq<string>)
    requires k !in ks && Distinct(ks)
    ensures Distinct([k] + ks)
  {
    forall i, j | 0 <= i < j < |[k] + ks| ensures ([k] + ks)[i] != ([k] + ks)[j] {
      assert ([k] + ks)[j] == ks[j - 1];
      if i > 0 {
        assert ([k] + ks)[i] == ks[i - 1];
      }
    }
  }

  /** The value of the last pair named `k`: the one a run of writes leaves behind. */
  function LastValue<V>(pairs: seq<(string, V)>, k: string): (r: Option<V>)
    ensures r.Some? <==> k in Keys(pairs)
    decreases |pairs|
  {
    if pairs == [] then None
    else
      var rest := LastValue(pairs[1..], k);
      if rest.Some? then rest
      else if pairs[0].0 == k then Some(pairs[0].1)
      else None
  }

  /** `LastValue` names a pair with no later pair of the same name. */
  lemma {:induction false} LastValueIsLast<V>(pairs: seq<(string, V)>, k: string)
    requires k in Keys(pairs)
    ensures exists i :: 0 <= i < |pairs| && pairs[i] == (k, LastValue(pairs, k).value) &&
                        forall j :: i < j < |pairs| ==> pairs[j].0 != k
    decreases |pairs|
  {
    var rest := pairs[1..];
    if k in Keys(rest) {
      LastValueIsLast(rest, k);
      var i :| 0 <= i < |rest| && rest[i] == (k, LastValue(rest, k).value) &&
                forall j :: i < j < |rest| ==> rest[j].0 != k;
      assert pairs[i + 1] == rest[i];
      assert forall j :: i + 1 < j < |pairs| ==> pairs[j].0 != k by {
        forall j | i + 1 < j < |pairs| ensures pairs[j].0 != k {
          assert pairs[j] == rest[j - 1];
        }
      }
    } else {
      assert pairs[0].0 == k;
      forall j | 0 < j < |pairs| ensures pairs[j].0 != k {
        assert pairs[j] == rest[j - 1];
        assert Keys(rest)[j - 1] == rest[j - 1].0;
      }
    }
  }

  /** After `m[k] = v`, `k` reads as `v` and every other name reads as before. */
  lemma {:induction false} AssignGet<V>(m: Entries<V>, k: string, v: V, k': string)
    ensures Get(Assign(m, k, v), k') == if k' == k then Some(v) else Get(m, k')
    decreases |m|
  {
    if m != [] && m[0].0 != k {
      AssignGet(m[1..], k, v, k');
    }
  }

  /** Writing a property keeps every name distinct. */
  lemma AssignKeepsKeysUnique<V>(m: Entries<V>, k: string, v: V)
    requires KeysUnique(m)
    ensures KeysUnique(Assign(m, k, v))
  {
  }

  /** A run of writes appends the new names in the order they are first written. */
  lemma {:induction false} AssignAllKeys<V>(m: Entries<V>, pairs: seq<(string, V)>)
    ensures Keys(AssignAll(m, pairs)) == Keys(m) + FreshKeys(Keys(m), Keys(pairs))
    decreases |pairs|
  {
    if pairs != [] {
      var (k0, v0) := pairs[0];
      var rest := pairs[1..];
      AssignAllKeys(Assign(m, k0, v0), rest);
      assert Keys(pairs) == [k0] + Keys(rest);
      if k0 in Keys(m) {
        assert FreshKeys(Keys(m), Keys(pairs)) == FreshKeys(Keys(m), Keys(rest));
      } else {
        assert FreshKeys(Keys(m), Keys(pairs)) == [k0] + FreshKeys(Keys(m) + [k0], Keys(rest));
      }
    }
  }

  /**
   After a run of writes, each name reads as the value of its last write, or
   as its old value when it was not written.
   */
  lemma {:induction false} AssignAllGet<V>(m: Entries<V>, pairs: seq<(string, V)>, k: string)
    ensures Get(AssignAll(m, pairs), k) == if k in Keys(pairs) then LastValue(pairs, k) else Get(m, k)
    decreases |pairs|
  {
    if pairs != [] {
      var (k0, v0) := pairs[0];
      var rest := pairs[1..];
      AssignAllGet(Assign(m, k0, v0), rest, k);
      AssignGet(m, k0, v0, k);
      assert Keys(pairs) == [k0] + Keys(rest);
    }
  }

  /** A run of writes keeps every name distinct. */
  lemma {:induction false} AssignAllKeepsKeysUnique<V>(m: Entries<V>, pairs: seq<(string, V)>)
    requires KeysUnique(m)
    ensures KeysUnique(AssignAll(m, pairs))
    decreases |pairs|
  {
    if pairs != [] {
      AssignKeepsKeysUnique(m, pairs[0].0, pairs[0].1);
      AssignAllKeepsKeysUnique(Assign(m, pairs[0].0, pairs[0].1), pairs[1..]);
    }
  }

  /** With unique names the first pair named `k` is also the last one. */
  lemma {:induction false} UniqueGetIsLast<V>(m: Entries<V>, k: string)
    requires KeysUnique(m)
    ensures Get(m, k) == LastValue(m, k)
    decreases |m|
  {
    if m != [] {
      var rest := m[1..];
      assert KeysUnique(rest) by {
        forall i, j | 0 <= i < j < |rest| ensures Keys(rest)[i] != Keys(rest)[j] {
          assert Keys(rest)[i] == Keys(m)[i + 1] && Keys(rest)[j] == Keys(m)[j + 1];
        }
      }
      UniqueGetIsLast(rest, k);
      if m[0].0 == k {
        assert k !in Keys(rest) by {
          forall i | 0 <= i < |rest| ensures Keys(rest)[i] != k {
            assert Keys(rest)[i] == Keys(m)[i + 1];
          }
        }
      }
    }
  }

  /** Objects are equal when they enumerate the same names and give the same values. */
  lemma EntriesExtensional<V>(a: Entries<V>, b: Entries<V>)
    requires KeysUnique(a) && Keys(a) == Keys(b)
    requires forall k :: Get(a, k) == Get(b, k)
    ensures a == b
  {
    forall i | 0 <= i < |a| ensures a[i] == b[i] {
      GetAtIndex(a, i);
      GetAtIndex(b, i);
    }
  }

  lemma {:induction false} GetAtIndex<V>(m: Entries<V>, i: nat)
    requires KeysUnique(m) && i < |m|
    ensures Get(m, m[i].0) == Some(m[i].1)
    decreases i
  {
    if i > 0 {
      var rest := m[1..];
      assert KeysUnique(rest) by {
        forall p, q | 0 <= p < q < |rest| ensures Keys(rest)[p] != Keys(rest)[q] {
          assert Keys(rest)[p] == Keys(m)[p + 1] && Keys(rest)[q] == Keys(m)[q + 1];
        }
      }
      assert rest[i - 1] == m[i];
      assert Keys(m)[0] != Keys(m)[i];
      GetAtIndex(rest, i - 1);
    }
  }

  /** Dropping names already seen, then those in a larger set, drops exactly the larger set. */
  lemma {:induction false} FreshKeysCompose(seen: seq<string>, inner: seq<string>, ks: seq<string>)
    requires forall k :: k in inner ==> k in seen
    ensures FreshKeys(seen, FreshKeys(inner, ks)) == FreshKeys(seen, ks)
    decreases |ks|
  {
    if ks != [] {
      var k0 := ks[0];
      if k0 in inner {
        FreshKeysCompose(seen, inner, ks[1..]);
      } else if k0 in seen {
        FreshKeysCompose(seen, inner + [k0], ks[1..]);
      } else {
        FreshKeysCompose(seen + [k0], inner + [k0], ks[1..]);
      }
    }
  }

  /**
   Spreading `fromPairs(pairs)` into an object writes the same properties,
   in the same order and with the same values, as writing every pair into it.
   */
  lemma SpreadOfFromPairs<V>(m: Entries<V>, pairs: seq<(string, V)>)
    requires KeysUnique(m)
    ensures AssignAll(m, FromPairs(pairs)) == AssignAll(m, pairs)
  {
    var d := FromPairs(pairs);
    AssignAllKeys(m, d);
    AssignAllKeys(m, pairs);
    AssignAllKeepsKeysUnique(m, d);
    FreshKeysCompose(Keys(m), [], Keys(pairs));
    forall k ensures Get(AssignAll(m, d), k) == Get(AssignAll(m, pairs), k) {
      AssignAllGet([], pairs, k);
      AssignAllGet(m, d, k);
      AssignAllGet(m, pairs, k);
      UniqueGetIsLast(d, k);
    }
    EntriesExtensional(AssignAll(m, d), AssignAll(m, pairs));
  }

  /** Names that are distinct and all unseen are all kept, in order. */
  lemma {:induction false} FreshKeysOfDistinct(seen: seq<string>, ks: seq<string>)
    requires Distinct(ks)
    requires forall i :: 0 <= i < |ks| ==> ks[i] !in seen
    ensures FreshKeys(seen, ks) == ks
    decreases |ks|
  {
    if ks != [] {
      var rest := ks[1..];
      forall i | 0 <= i < |rest| ensures rest[i] !in seen + [ks[0]] {
        assert rest[i] == ks[i + 1];
      }
      FreshKeysOfDistinct(seen + [ks[0]], rest);
      assert [ks[0]] + rest == ks;
    }
  }

  /** `fromPairs` of pairs with distinct names keeps every pair, in order. */
  lemma FromPairsOfDistinct<V>(pairs: seq<(string, V)>)
    requires Distinct(Keys(pairs))
    ensures FromPairs(pairs) == pairs
  {
    FreshKeysOfDistinct([], Keys(pairs));
    forall k ensures Get(FromPairs(pairs), k) == Get(pairs, k) {
      AssignAllGet([], pairs, k);
      UniqueGetIsLast(pairs, k);
    }
    EntriesExtensional(FromPairs(pairs), pairs);
  }
}

/**
 * Insertion-ordered maps as values, with the semantics of java.util.LinkedHashMap:
 * `keys` lists every key once, in the order it was first put, and `vals` holds
 * the current value of each key.  Putting a key that is already present replaces
 * its value and leaves its position in the order alone.
 */
module OrderedMaps {

  datatype OrderedMap<K, V> = OrderedMap(keys: seq<K>, vals: map<K, V>)

  /** No key occurs twice. */
  ghost predicate Distinct<K>(ks: seq<K>) {
    forall i, j :: 0 <= i < j < |ks| ==> ks[i] != ks[j]
  }

  /** The order lists exactly the keys of the table, each once. */
  ghost predicate Valid<K, V>(m: OrderedMap<K, V>) {
    && Distinct(m.keys)
    && (forall k :: k in m.vals ==> k in m.keys)
    && (forall k :: k in m.keys ==> k in m.vals)
  }

  /** A freshly constructed, empty map. */
  function Empty<K, V>(): OrderedMap<K, V> {
    OrderedMap([], map[])
  }

  /** `LinkedHashMap.put(k, v)`. */
  function Put<K, V>(m: OrderedMap<K, V>, k: K, v: V): (r: OrderedMap<K, V>)
    ensures Valid(m) ==> Valid(r)
    ensures k in r.vals && r.vals[k] == v
    ensures forall k' :: k' in r.vals && k' != k ==> k' in m.vals
    ensures forall k' :: k' in m.vals && k' != k ==> k' in r.vals && r.vals[k'] == m.vals[k']
    ensures m.keys <= r.keys && |r.keys| <= |m.keys| + 1
    ensures Valid(m) ==> (r.keys == m.keys <==> k in m.keys)
  {
    OrderedMap(if k in m.vals then m.keys else m.keys + [k], m.vals[k := v])
  }

  /** The keys of a sequence of entries, in order. */
  function EntryKeys<K, V>(es: seq<(K, V)>): (ks: seq<K>)
    ensures |ks| == |es|
  {
    seq(|es|, i requires 0 <= i < |es| => es[i].0)
  }

  /** Puts the entries one after the other, first to last. */
  function PutAll<K, V>(m: OrderedMap<K, V>, es: seq<(K, V)>): OrderedMap<K, V>
    decreases |es|
  {
    if es == [] then m else PutAll(Put(m, es[0].0, es[0].1), es[1..])
  }

  /**
   * Independent reference for the key order: each key of `ks` that is not in
   * `seen`, at the place where it first occurs.
   */
  function FirstOccurrences<K>(ks: seq<K>, seen: set<K>): seq<K> {
    if ks == [] then []
    else if ks[0] in seen then FirstOccurrences(ks[1..], seen)
    else [ks[0]] + FirstOccurrences(ks[1..], seen + {ks[0]})
  }

  lemma EntryKeysAppend<K, V>(a: seq<(K, V)>, b: seq<(K, V)>)
    ensures EntryKeys(a + b) == EntryKeys(a) + EntryKeys(b)
  {
  }

  /** Putting two runs of entries is putting their concatenation. */
  lemma {:induction false} PutAllAppend<K, V>(m: OrderedMap<K, V>, a: seq<(K, V)>, b: seq<(K, V)>)
    ensures PutAll(m, a + b) == PutAll(PutAll(m, a), b)
    decreases |a|
  {
    if a == [] {
      assert a + b == b;
    } else {
      assert (a + b)[1..] == a[1..] + b;
      PutAllAppend(Put(m, a[0].0, a[0].1), a[1..], b);
    }
  }

  /** The order stays a duplicate-free listing of the table's keys. */
  lemma {:induction false} PutAllValid<K, V>(m: OrderedMap<K, V>, es: seq<(K, V)>)
    requires Valid(m)
    ensures Valid(PutAll(m, es))
    decreases |es|
  {
    if es != [] {
      PutAllValid(Put(m, es[0].0, es[0].1), es[1..]);
    }
  }

  /**
   * The keys already present keep their positions, and the new keys follow in
   * the order of their first occurrence among the entries.
   */
  lemma {:induction false} PutAllKeys<K, V>(m: OrderedMap<K, V>, es: seq<(K, V)>)
    ensures PutAll(m, es).keys == m.keys + FirstOccurrences(EntryKeys(es), m.vals.Keys)
    decreases |es|
  {
    if es != [] {
      var k := es[0].0;
      var m' := Put(m, k, es[0].1);
      var ks := EntryKeys(es);
      assert ks[0] == k && ks[1..] == EntryKeys(es[1..]);
      PutAllKeys(m', es[1..]);
      if k in m.vals {
        assert m'.keys == m.keys;
        assert m'.vals.Keys == m.vals.Keys;
        assert FirstOccurrences(ks, m.vals.Keys) == FirstOccurrences(ks[1..], m.vals.Keys);
      } else {
        assert m'.keys == m.keys + [k];
        assert m'.vals.Keys == m.vals.Keys + {k};
        assert FirstOccurrences(ks, m.vals.Keys) == [k] + FirstOccurrences(ks[1..], m.vals.Keys + {k});
      }
    }
  }

  /** A key is present afterwards exactly when it was before or some entry has it. */
  lemma {:induction false} PutAllDomain<K, V>(m: OrderedMap<K, V>, es: seq<(K, V)>, k: K)
    ensures k in PutAll(m, es).vals <==> k in m.vals || k in EntryKeys(es)
    decreases |es|
  {
    if es != [] {
      var ks := EntryKeys(es);
      PutAllDomain(Put(m, es[0].0, es[0].1), es[1..], k);
      assert ks[0] == es[0].0 && ks[1..] == EntryKeys(es[1..]);
      assert k in ks <==> k == ks[0] || k in ks[1..];
    }
  }

  /** The last entry for a key decides its value. */
  lemma {:induction false} PutAllLastWins<K, V>(m: OrderedMap<K, V>, es: seq<(K, V)>, i: nat)
    requires i < |es|
    requires forall j :: i < j < |es| ==> es[j].0 != es[i].0
    ensures es[i].0 in PutAll(m, es).vals && PutAll(m, es).vals[es[i].0] == es[i].1
    decreases |es|
  {
    var m' := Put(m, es[0].0, es[0].1);
    if i == 0 {
      PutAllUntouched(m', es[1..], es[0].0);
    } else {
      PutAllLastWins(m', es[1..], i - 1);
    }
  }

  /** A key that no entry has keeps its presence and its value. */
  lemma {:induction false} PutAllUntouched<K, V>(m: OrderedMap<K, V>, es: seq<(K, V)>, k: K)
    requires forall j :: 0 <= j < |es| ==> es[j].0 != k
    ensures k in PutAll(m, es).vals <==> k in m.vals
    ensures k in m.vals ==> PutAll(m, es).vals[k] == m.vals[k]
    decreases |es|
  {
    if es != [] {
      PutAllUntouched(Put(m, es[0].0, es[0].1), es[1..], k);
    }
  }

  lemma {:induction false} FirstOccurrencesFacts<K>(ks: seq<K>, seen: set<K>)
    ensures Distinct(FirstOccurrences(ks, seen))
    ensures forall k :: k in FirstOccurrences(ks, seen) <==> k in ks && k !in seen
    ensures |FirstOccurrences(ks, seen)| <= |ks|
  {
    if ks != [] {
      if ks[0] in seen {
        FirstOccurrencesFacts(ks[1..], seen);
      } else {
        FirstOccurrencesFacts(ks[1..], seen + {ks[0]});
      }
      assert ks == [ks[0]] + ks[1..];
    }
  }

  /**
   * No key is dropped exactly when the keys are distinct and none was seen
   * before; in every other case the result is strictly shorter.
   */
  lemma {:induction false} FirstOccurrencesLength<K>(ks: seq<K>, seen: set<K>)
    ensures |FirstOccurrences(ks, seen)| == |ks| <==> Distinct(ks) && forall i :: 0 <= i < |ks| ==> ks[i] !in seen
    ensures |FirstOccurrences(ks, seen)| == |ks| ==> FirstOccurrences(ks, seen) == ks
  {
    if ks != [] {
      var rest := ks[1..];
      if ks[0] in seen {
        FirstOccurrencesFacts(rest, seen);
      } else {
        FirstOccurrencesLength(rest, seen + {ks[0]});
        FirstOccurrencesFacts(rest, seen + {ks[0]});
        if Distinct(ks) && forall i :: 0 <= i < |ks| ==> ks[i] !in seen {
          assert forall i :: 0 <= i < |rest| ==> rest[i] !in seen + {ks[0]} by {
            forall i | 0 <= i < |rest| ensures rest[i] !in seen + {ks[0]} {
              assert rest[i] == ks[i + 1];
            }
          }
        }
        if |FirstOccurrences(ks, seen)| == |ks| {
          assert Distinct(ks) by {
            forall i, j | 0 <= i < j < |ks| ensures ks[i] != ks[j] {
              if i == 0 {
                assert ks[j] == rest[j - 1];
              } else {
                assert ks[i] == rest[i - 1] && ks[j] == rest[j - 1];
              }
            }
          }
          forall i | 0 <= i < |ks| ensures ks[i] !in seen {
            if i > 0 {
              assert ks[i] == rest[i - 1];
            }
          }
        }
      }
    }
  }

  /** Concatenating two distinct, disjoint key sequences keeps them distinct. */
  lemma DistinctAppend<K>(a: seq<K>, b: seq<K>)
    requires Distinct(a) && Distinct(b)
    requires forall i, j :: 0 <= i < |a| && 0 <= j < |b| ==> a[i] != b[j]
    ensures Distinct(a + b)
  {
  }
}

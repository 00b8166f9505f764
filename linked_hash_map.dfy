/**
 * The mutable accumulator the flattener fills: a java.util.LinkedHashMap,
 * kept as its insertion order and its table, whose abstract value is an
 * OrderedMaps.OrderedMap.
 */
module LinkedHashMaps {
  import OrderedMaps

  class LinkedHashMap<K(==), V> {
    var order: seq<K>
    var table: map<K, V>

    /** The abstract value of the map. */
    function Model(): OrderedMaps.OrderedMap<K, V>
      reads this
    {
      OrderedMaps.OrderedMap(order, table)
    }

    ghost predicate Valid()
      reads this
    {
      OrderedMaps.Valid(Model())
    }

    /** `new LinkedHashMap<>()`. */
    constructor ()
      ensures Valid()
      ensures Model() == OrderedMaps.Empty()
    {
      order := [];
      table := map[];
    }

    /** `put(k, v)`: replaces the value of a present key in place, appends a new one. */
    method Put(k: K, v: V)
      requires Valid()
      modifies this
      ensures Valid()
      ensures Model() == OrderedMaps.Put(old(Model()), k, v)
    {
      if k !in table {
        order := order + [k];
      }
      table := table[k := v];
    }

    /** `isEmpty()`. */
    method IsEmpty() returns (empty: bool)
      requires Valid()
      ensures empty <==> table == map[]
      ensures empty <==> |Model().keys| == 0
    {
      empty := |order| == 0;
      if !empty {
        assert order[0] in table;
      }
    }
  }
}

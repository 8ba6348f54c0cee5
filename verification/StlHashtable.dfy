/** The string-keyed hash table of the in-memory store (lib/stl_hashtable.h). */
module StlHashtable {
  import opened Wrappers

  predicate Enumerates(order: seq<string>, keys: set<string>) {
    && (forall k :: k in keys ==> k in order)
    && (forall i :: 0 <= i < |order| ==> order[i] in keys)
    && (forall i, j :: 0 <= i < j < |order| ==> order[i] != order[j])
  }

  function PositionOf(order: seq<string>, key: string): (i: nat)
    ensures i <= |order|
    ensures key in order ==> i < |order| && order[i] == key
    ensures key !in order ==> i == |order|
    ensures key !in order[..i]
  {
    if order == [] || order[0] == key then 0
    else
      var i := 1 + PositionOf(order[1..], key);
      assert order[..i] == [order[0]] + order[1..][..i - 1];
      i
  }

  function Without(order: seq<string>, key: string): seq<string> {
    var i := PositionOf(order, key);
    if i < |order| then order[..i] + order[i + 1..] else order
  }

  lemma WithoutEnumerates(order: seq<string>, keys: set<string>, key: string)
    requires Enumerates(order, keys)
    ensures Enumerates(Without(order, key), keys - {key})
  {
    var i := PositionOf(order, key);
    var rest := Without(order, key);
    forall k | k in keys - {key}
      ensures k in rest
    {
      var j :| 0 <= j < |order| && order[j] == k;
      WithoutAt(order, key, j);
    }
    forall a, b | 0 <= a < b < |rest|
      ensures rest[a] != rest[b]
    {
      assert order[if a < i then a else a + 1] != order[if b < i then b else b + 1];
    }
    forall a | 0 <= a < |rest|
      ensures rest[a] in keys - {key}
    {
      assert rest[a] == order[if a < i then a else a + 1];
    }
  }

  lemma WithoutAt(order: seq<string>, key: string, j: nat)
    requires j < |order| && order[j] != key
    ensures order[j] in Without(order, key)
  {
    OneDropped(order, PositionOf(order, key), j);
  }

  lemma OneDropped(order: seq<string>, i: nat, j: nat)
    requires j < |order|
    ensures i < |order| && j != i ==> order[j] in order[..i] + order[i + 1..]
  {
    if i < |order| && j != i {
      assert (order[..i] + order[i + 1..])[if j < i then j else j - 1] == order[j];
    }
  }

  /** The others keep their order. */
  lemma WithoutKeepsOrder(order: seq<string>, key: string, i: nat)
    requires i < |order| && order[i] == key && key !in order[..i]
    ensures |Without(order, key)| == |order| - 1
    ensures forall j :: 0 <= j < |order| - 1 ==> Without(order, key)[j] == order[if j < i then j else j + 1]
  {
    PositionIs(order, key, i);
  }

  lemma PositionIs(order: seq<string>, key: string, i: nat)
    requires i < |order| && order[i] == key && key !in order[..i]
    ensures PositionOf(order, key) == i
  {
  }

  lemma WithEnumerates(order: seq<string>, keys: set<string>, key: string)
    requires Enumerates(order, keys) && key !in keys
    ensures Enumerates(order + [key], keys + {key})
  {
    forall k | k in keys + {key}
      ensures k in order + [key]
    {
      assert (order + [key])[|order|] == key;
    }
  }

  /** Where an iteration starts: at the beginning, at the key, or at the end if the key is missing. */
  function StartOf(order: seq<string>, key: Option<string>): (i: nat)
    ensures i <= |order|
  {
    if key.None? then 0 else PositionOf(order, key.value)
  }

  function Least(a: nat, b: nat): nat {
    if a < b then a else b
  }

  /** How many entries an iteration yields; no limit stands for the largest size_t, which no table reaches. */
  function CountOf(order: seq<string>, key: Option<string>, limit: Option<nat>): nat {
    var rest := |order| - StartOf(order, key);
    if limit.None? then rest else Least(rest, limit.value)
  }

  /** In figures, for an iteration from a key that is in the table, from the beginning, and from a missing key. */
  lemma StretchIs(order: seq<string>, keys: set<string>, key: Option<string>, limit: Option<nat>, p: nat)
    requires Enumerates(order, keys) && p <= |order|
    requires match key
             case None => p == 0
             case Some(k) => if k in keys then p < |order| && order[p] == k else p == |order|
    ensures StartOf(order, key) == p
    ensures CountOf(order, key, limit)
            == if limit.Some? && limit.value < |order| - p then limit.value else |order| - p
  {
    if key.Some? && key.value in keys {
      assert forall i :: 0 <= i < p ==> order[i] != order[p];
      PositionIs(order, key.value, p);
    }
  }

  class Hashtable<V> {
    var table: map<string, V>
    /** The iteration order: any enumeration of the keys, settled by the buckets. */
    var order: seq<string>

    ghost predicate Valid()
      reads this
    {
      Enumerates(order, table.Keys)
    }

    constructor ()
      ensures Valid() && table == map[]
    {
      table := map[];
      order := [];
    }

    function Get(key: string): Option<V>
      reads this
    {
      if key in table then Some(table[key]) else None
    }

    /** A new entry can rehash the table, so afterwards the iteration order can be any. */
    method Insert(key: string, value: V) returns (inserted: bool)
      requires Valid()
      modifies this
      ensures Valid()
      ensures inserted <==> key !in old(table)
      ensures table == if inserted then old(table)[key := value] else old(table)
      ensures !inserted ==> order == old(order)
    {
      inserted := key !in table;
      if inserted {
        WithEnumerates(order, table.Keys, key);
        table := table[key := value];
        assert table.Keys == old(table.Keys) + {key};
        assert Enumerates(order + [key], table.Keys);
        var rehashed :| Enumerates(rehashed, table.Keys);
        order := rehashed;
      }
    }

    method Update(key: string, value: V) returns (previous: Option<V>)
      requires Valid()
      modifies this`table
      ensures Valid()
      ensures previous == if key in old(table) then Some(old(table)[key]) else None
      ensures table == if key in old(table) then old(table)[key := value] else old(table)
    {
      if key !in table {
        return None;
      }
      previous := Some(table[key]);
      table := table[key := value];
      assert table.Keys == old(table.Keys);
    }

    /** Removing an entry keeps the order of the others. */
    method Remove(key: string) returns (removed: Option<V>)
      requires Valid()
      modifies this
      ensures Valid()
      ensures removed == if key in old(table) then Some(old(table)[key]) else None
      ensures table == old(table) - {key} && order == Without(old(order), key)
    {
      if key !in table {
        assert table - {key} == table;
        return None;
      }
      removed := Some(table[key]);
      WithoutEnumerates(order, table.Keys, key);
      table := table - {key};
      order := Without(order, key);
    }

    /** A stretch of the iteration order, from the key on, with the value of every key in it. */
    method Entries(key: Option<string>, limit: Option<nat>) returns (pairs: seq<(string, V)>)
      requires Valid()
      ensures |pairs| == CountOf(order, key, limit)
      ensures forall i :: 0 <= i < |pairs| ==>
                && pairs[i].0 == order[StartOf(order, key) + i]
                && pairs[i].0 in table && pairs[i].1 == table[pairs[i].0]
    {
      pairs := [];
      var position := StartOf(order, key);
      var i := 0;
      while position != |order| && (limit.None? || i < limit.value)
        invariant i == |pairs| && position == StartOf(order, key) + i
        invariant position <= |order| && (limit.Some? ==> i <= limit.value)
        invariant forall j :: 0 <= j < i ==>
                    && pairs[j].0 == order[StartOf(order, key) + j]
                    && pairs[j].0 in table && pairs[j].1 == table[pairs[j].0]
        decreases |order| - position
      {
        pairs := pairs + [(order[position], table[order[position]])];
        position := position + 1;
        i := i + 1;
      }
    }
  }
}

/**
 * The separate-chaining hash map: an array of chains, key `k` living in
 * chain `hash(k) % capacity`. The table stands for the map of its
 * concatenated chains, `Contents()`, and every method is proved against it.
 * find_mode, the free function beside the class, counts a sequence of
 * strings with two such tables.
 */
module SeparateChaining {
  import opened Common
  import opened Chains
  import opened Frequency

  class HashMap<V> {
    const hash: string -> nat
    var buckets: array<Chain<V>>
    var capacity: nat
    var size: nat

    /**
     * The array has `capacity` chains, every key sits in its home chain and
     * no chain repeats a key, and `size` is the number of nodes.
     */
    ghost predicate Valid()
      reads this, buckets
    {
      buckets.Length == capacity && HomedFrom(buckets[..], hash, capacity, 0) && size == |Flat(buckets[..])|
    }

    /** The map the table stands for. */
    ghost function Contents(): map<string, V>
      reads this, buckets
    {
      ToMap(Flat(buckets[..]))
    }

    /** A table of `capacity` empty chains. */
    constructor (capacity: nat, hash: string -> nat)
      ensures Valid() && fresh(buckets)
      ensures this.capacity == capacity && this.hash == hash && size == 0
      ensures forall i :: 0 <= i < capacity ==> buckets[i] == []
      ensures Contents() == map[]
    {
      this.hash := hash;
      this.capacity := capacity;
      buckets := new Chain<V>[capacity](_ => []);
      size := 0;
      new;
      FlatEmpty(buckets[..], hash, capacity);
    }

    /**
     * put: a key missing from its home chain is inserted at the head and
     * counted; a present key has its node's value replaced.
     */
    method Put(key: string, value: V)
      requires Valid() && capacity >= 1
      modifies this, buckets
      ensures Valid() && buckets == old(buckets) && capacity == old(capacity)
      ensures var h, c := hash(key) % capacity, old(buckets[hash(key) % capacity]);
              buckets[..] == old(buckets[..])[h := if Find(c, key).None? then Prepend(c, key, value) else Update(c, key, value)]
      ensures Contents() == old(Contents())[key := value]
      ensures size == old(size) + (if key in old(Contents()) then 0 else 1)
    {
      var index := hash(key) % capacity;
      var bucket := buckets[index];
      ghost var before := buckets[..];
      FlatAt(before, hash, capacity, 0, key);
      FindToMap(bucket, key);
      var c';
      if Find(bucket, key).None? {
        c' := Prepend(bucket, key, value);
        PrependHomed(bucket, hash, capacity, index, key, value);
      } else {
        c' := Update(bucket, key, value);
        UpdateHomed(bucket, hash, capacity, index, key, value);
        UpdateToMap(bucket, key, value);
      }
      ReplaceChain(before, hash, key, c');
      buckets[index] := c';
      assert buckets[..] == before[index := c'];
      if Find(bucket, key).None? {
        size := size + 1;
      }
      MapAgree(old(Contents()), Contents(), key, value);
    }

    /** get: the value the map holds for `key`, if any. */
    function Get(key: string): (r: Option<V>)
      reads this, buckets
      requires Valid() && capacity >= 1
      ensures r == if key in Contents() then Some(Contents()[key]) else None
    {
      FlatAt(buckets[..], hash, capacity, 0, key);
      FindToMap(buckets[hash(key) % capacity], key);
      Find(buckets[hash(key) % capacity], key)
    }

    /** contains_key: whether the map holds `key`. */
    function ContainsKey(key: string): (r: bool)
      reads this, buckets
      requires Valid() && capacity >= 1
      ensures r <==> key in Contents()
    {
      FlatAt(buckets[..], hash, capacity, 0, key);
      FindToMap(buckets[hash(key) % capacity], key);
      Find(buckets[hash(key) % capacity], key).Some?
    }

    /** remove: the first node of the home chain carrying `key` goes, and size drops when there was one. */
    method Remove(key: string)
      requires Valid() && capacity >= 1
      modifies this, buckets
      ensures Valid() && buckets == old(buckets) && capacity == old(capacity)
      ensures var h := hash(key) % capacity;
              buckets[..] == old(buckets[..])[h := RemoveFirst(old(buckets[h]), key).0]
      ensures key !in old(Contents()) ==> buckets[..] == old(buckets[..])
      ensures Contents() == old(Contents()) - {key}
      ensures size == old(size) - (if key in old(Contents()) then 1 else 0)
    {
      var index := hash(key) % capacity;
      var bucket := buckets[index];
      ghost var before := buckets[..];
      FlatAt(before, hash, capacity, 0, key);
      RemoveFirstToMap(bucket, key);
      if key !in ToMap(bucket) {
        ToMapKeys(bucket, key);
        RemoveFirstAbsent(bucket, key);
        assert before[index := bucket] == before;
      }
      RemoveFirstHomed(bucket, hash, capacity, index, key);
      var (c', result) := RemoveFirst(bucket, key);
      ReplaceChain(before, hash, key, c');
      buckets[index] := c';
      assert buckets[..] == before[index := c'];
      if result {
        size := size - 1;
      }
      MapRemoved(old(Contents()), Contents(), key);
    }

    /** clear: size 0 and a new array of `capacity` empty chains. */
    method Clear()
      requires Valid()
      modifies this
      ensures Valid() && capacity == old(capacity) && size == 0 && fresh(buckets)
      ensures forall i :: 0 <= i < capacity ==> buckets[i] == []
      ensures Contents() == map[]
    {
      size := 0;
      buckets := new Chain<V>[capacity](_ => []);
      FlatEmpty(buckets[..], hash, capacity);
    }

    /** empty_buckets: the chains without nodes; all of them exactly when the map is empty. */
    method EmptyBuckets() returns (count: nat)
      requires Valid()
      ensures count == EmptyCount(buckets[..])
      ensures count <= capacity && capacity - count <= size
      ensures count == capacity <==> Contents() == map[]
    {
      count := 0;
      for i := 0 to capacity
        invariant count == EmptyCount(buckets[..i])
      {
        assert buckets[..i + 1][..i] == buckets[..i];
        if |buckets[i]| == 0 {
          count := count + 1;
        }
      }
      assert buckets[..capacity] == buckets[..];
      EmptyCountBounds(buckets[..]);
      EmptyMap(Flat(buckets[..]));
    }

    /** table_load: size / capacity, which is 0 exactly when the map is empty. */
    function TableLoad(): (r: real)
      reads this, buckets
      requires Valid() && capacity >= 1
      ensures r * capacity as real == size as real
      ensures r == 0.0 <==> Contents() == map[]
    {
      EmptyMap(Flat(buckets[..]));
      size as real / capacity as real
    }

    /**
     * resize_table: nothing for a capacity below one; otherwise this table
     * takes over the array, capacity and size of a rehashed copy of the new
     * capacity.
     */
    method ResizeTable(newCapacity: int)
      requires Valid()
      modifies this
      ensures Valid()
      ensures newCapacity < 1 ==> capacity == old(capacity) && buckets == old(buckets) && size == old(size)
      ensures newCapacity >= 1 ==> capacity == newCapacity && fresh(buckets)
      ensures Contents() == old(Contents()) && size == old(size)
    {
      if newCapacity < 1 {
        return;
      }
      var temp := Rehashed(newCapacity);
      capacity, buckets, size := temp.capacity, temp.buckets, temp.size;
    }

    /**
     * The temporary table of resize_table: a new table of `newCapacity`
     * chains into which every node, chain by chain and head first, is put.
     * It holds the same map and the same number of nodes.
     */
    method Rehashed(newCapacity: nat) returns (temp: HashMap<V>)
      requires Valid() && newCapacity >= 1
      ensures fresh(temp) && fresh(temp.buckets) && temp.Valid() && temp.hash == hash
      ensures temp.capacity == newCapacity && temp.Contents() == Contents() && temp.size == size
    {
      ghost var bs := buckets[..];
      temp := new HashMap<V>(newCapacity, hash);
      for i := 0 to capacity
        invariant buckets[..] == bs
        invariant fresh(temp) && fresh(temp.buckets) && temp.Valid() && temp.hash == hash
        invariant temp.capacity == newCapacity
        invariant temp.size == |Flat(bs[..i])|
        invariant temp.Contents() == PutAll(map[], Flat(bs[..i]))
      {
        var bucket := buckets[i];
        ChainStep(bs, hash, capacity, i);
        temp.PutNodes(bucket, PutAll(map[], Flat(bs[..i])));
      }
      assert bs[..capacity] == bs;
      FlatHomed(bs, hash, capacity, 0);
      PutAllToMap(Flat(bs));
    }

    /**
     * The inner loop of resize_table: the nodes of one chain, head first,
     * put one after the other into this table, which holds `m`; each node
     * brings a key not put before, so the size grows by one per node.
     */
    method PutNodes(nodes: Chain<V>, ghost m: map<string, V>)
      requires Valid() && capacity >= 1 && Contents() == m
      requires forall p :: 0 <= p < |nodes| ==> FreshAfter(m, nodes, p)
      modifies this, buckets
      ensures Valid() && buckets == old(buckets) && capacity == old(capacity)
      ensures Contents() == PutAll(m, nodes) && size == old(size) + |nodes|
    {
      for j := 0 to |nodes|
        invariant Valid() && buckets == old(buckets) && capacity == old(capacity)
        invariant size == old(size) + j
        invariant Contents() == PutAll(m, nodes[..j])
      {
        PutAllStep(m, nodes, j);
        assert FreshAfter(m, nodes, j);
        Put(nodes[j].0, nodes[j].1);
      }
      assert nodes[..|nodes|] == nodes;
    }

    /**
     * get_keys: the keys chain by chain, head first; each key of the map
     * once, and nothing else.
     */
    method GetKeys() returns (keys: seq<string>)
      requires Valid()
      ensures keys == Keys(Flat(buckets[..])) && |keys| == size
      ensures forall k :: k in keys <==> k in Contents()
      ensures forall a, b :: 0 <= a < b < |keys| ==> keys[a] != keys[b]
    {
      ghost var all := Flat(buckets[..]);
      keys := [];
      for i := 0 to capacity
        invariant |keys| == |Flat(buckets[..i])| <= |all|
        invariant forall q :: 0 <= q < |keys| ==> keys[q] == all[q].0
      {
        var bucket := buckets[i];
        ghost var base := |Flat(buckets[..i])|;
        FlatPrefixStep(buckets[..], i);
        assert buckets[..][..i] == buckets[..i] && buckets[..][..i + 1] == buckets[..i + 1];
        FlatPrefixLength(buckets[..], i + 1);
        for j := 0 to |bucket|
          invariant |keys| == base + j
          invariant forall q :: 0 <= q < |keys| ==> keys[q] == all[q].0
        {
          FlatIndex(buckets[..], i, j);
          keys := keys + [bucket[j].0];
        }
      }
      assert buckets[..capacity] == buckets[..];
      FlatHomed(buckets[..], hash, capacity, 0);
      forall k
        ensures k in keys <==> k in Contents()
      {
        ToMapKeys(all, k);
      }
    }
  }

  /** The number of chains of `bs` without nodes. */
  function EmptyCount<V>(bs: seq<Chain<V>>): nat {
    if |bs| == 0 then 0
    else EmptyCount(bs[..|bs| - 1]) + (if |bs[|bs| - 1]| == 0 then 1 else 0)
  }

  /**
   * At most every chain is empty, each non-empty chain holds at least one
   * node, and all chains are empty exactly when there are no nodes.
   */
  lemma {:induction false} EmptyCountBounds<V>(bs: seq<Chain<V>>)
    ensures EmptyCount(bs) <= |bs| && |bs| - EmptyCount(bs) <= |Flat(bs)|
    ensures EmptyCount(bs) == |bs| <==> |Flat(bs)| == 0
    decreases |bs|
  {
    if |bs| > 0 {
      var n := |bs| - 1;
      EmptyCountBounds(bs[..n]);
      FlatPrefixStep(bs, n);
      assert bs[..n + 1] == bs;
    }
  }

  /** A prefix of the array holds no more nodes than the whole array. */
  lemma FlatPrefixLength<V>(bs: seq<Chain<V>>, i: nat)
    requires i <= |bs|
    ensures |Flat(bs[..i])| <= |Flat(bs)|
  {
    assert bs == bs[..i] + bs[i..];
    FlatConcat(bs[..i], bs[i..]);
  }

  /** A sequence of nodes stands for the empty map exactly when it has no nodes. */
  lemma EmptyMap<V>(s: seq<(string, V)>)
    ensures ToMap(s) == map[] <==> |s| == 0
  {
    if |s| > 0 {
      assert s[0].0 in ToMap(s);
    }
  }

  /** Two maps that agree away from `key` and hold `value` there are an update of one another. */
  lemma MapAgree<V>(m: map<string, V>, m': map<string, V>, key: string, value: V)
    requires forall k :: k != key ==> (k in m' <==> k in m) && (k in m ==> m'[k] == m[k])
    requires key in m' && m'[key] == value
    ensures m' == m[key := value]
  {
  }

  /** Two maps that agree away from `key`, the second without it, differ by its removal. */
  lemma MapRemoved<V>(m: map<string, V>, m': map<string, V>, key: string)
    requires forall k :: k != key ==> (k in m' <==> k in m) && (k in m ==> m'[k] == m[k])
    requires key !in m'
    ensures m' == m - {key}
  {
  }

  /**
   * find_mode: the values of `da` that occur most often, each once in order
   * of first occurrence, and how often they occur. The first pass counts
   * every value in a table; the second keeps the list of values reaching the
   * largest count seen so far, a second table remembering which were listed.
   * Both tables have |da| / 3 buckets, so for a sequence of one or two values
   * the first contains_key would divide by zero computing the home bucket.
   */
  method FindMode(da: seq<string>, hash: string -> nat) returns (mode: seq<string>, frequency: nat)
    requires |da| == 0 || |da| >= 3
    ensures frequency == MaxCount(da) && mode == Modes(da)
  {
    var counts := CountValues(da, hash);
    mode, frequency := ListModes(da, counts);
  }

  /** The second loop of find_mode, over the table of counts. */
  method ListModes(da: seq<string>, counts: HashMap<nat>) returns (mode: seq<string>, frequency: nat)
    requires |da| == 0 || |da| >= 3
    requires counts.Valid() && counts.capacity == |da| / 3 && counts.Contents() == Counts(da)
    ensures frequency == MaxCount(da) && mode == Modes(da)
  {
    var ret: seq<string> := [];
    var maxFrequency: nat := 0;
    var helper := new HashMap<nat>(|da| / 3, counts.hash);
    for i := 0 to |da|
      invariant fresh(helper) && fresh(helper.buckets) && helper.Valid()
      invariant helper.capacity == |da| / 3 && (|da| >= 1 ==> helper.capacity >= 1)
      invariant ModeInvariant(da, i, maxFrequency, ret, helper.Contents().Keys)
    {
      assert da[i] in da;
      CountsMeaning(da, da[i]);
      var c := counts.Get(da[i]).value;
      if c > maxFrequency {
        TallyAbove(da, i, maxFrequency, ret, helper.Contents().Keys);
        ret := [da[i]];
        maxFrequency := c;
        helper.Put(da[i], 0);
      } else if c == maxFrequency {
        TallyLevel(da, i, maxFrequency, ret, helper.Contents().Keys);
        if !helper.ContainsKey(da[i]) {
          ret := ret + [da[i]];
          helper.Put(da[i], 0);
        }
      } else {
        TallyBelow(da, i, maxFrequency, ret, helper.Contents().Keys);
      }
    }
    assert da[..|da|] == da;
    mode, frequency := ret, maxFrequency;
  }

  /** The first loop of find_mode: a table of |da| / 3 buckets mapping every value of `da` to its count. */
  method CountValues(da: seq<string>, hash: string -> nat) returns (counts: HashMap<nat>)
    requires |da| == 0 || |da| >= 3
    ensures fresh(counts) && fresh(counts.buckets) && counts.Valid() && counts.capacity == |da| / 3
    ensures counts.Contents() == Counts(da)
  {
    counts := new HashMap<nat>(|da| / 3, hash);
    for i := 0 to |da|
      invariant fresh(counts) && fresh(counts.buckets) && counts.Valid() && counts.capacity == |da| / 3
      invariant counts.Contents() == Counts(da[..i])
    {
      CountsStep(da, i);
      var count: nat;
      if counts.ContainsKey(da[i]) {
        count := counts.Get(da[i]).value + 1;
        counts.Put(da[i], count);
      } else {
        count := 1;
        counts.Put(da[i], count);
      }
    }
    assert da[..|da|] == da;
  }
}

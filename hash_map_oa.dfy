/**
 * The open-addressing hash map: a bucket array searched along the quadratic
 * probe sequence, with tombstones marking removed entries. Each method runs
 * the source's loop over the array and is proved against the walk functions
 * of module Probing. A loop the source would run forever is stopped once it
 * has seen every probe index (after that it only repeats itself) and
 * reported through the `loops` result.
 */
module OpenAddressing {
  import opened Common
  import opened Probing

  class HashMap<V> {
    const hash: string -> nat
    var buckets: array<Slot<V>>
    var capacity: nat
    var size: int

    /**
     * The bucket array has `capacity` slots, and `size` never exceeds the
     * number of live slots (it can fall below it, and below zero).
     */
    ghost predicate Valid()
      reads this, buckets
    {
      buckets.Length == capacity && size <= LiveCount(buckets[..])
    }

    /** Termination measure of put: how far one more entry is above half the capacity. */
    ghost function PutRank(): nat
      reads this, buckets
    {
      var live := LiveCount(buckets[..]);
      if 2 * (live + 1) > capacity then 2 * (live + 1) - capacity else 0
    }

    /** Termination measure of resize_table: how far twice the entries exceed the new capacity. */
    ghost function ResizeRank(newCapacity: int): nat
      reads this, buckets
    {
      var live := LiveCount(buckets[..]);
      if 2 * live + 1 > newCapacity then 2 * live + 1 - newCapacity else 0
    }

    /** A table of `capacity` empty buckets. */
    constructor (capacity: nat, hash: string -> nat)
      ensures Valid() && fresh(buckets)
      ensures this.capacity == capacity && this.hash == hash && size == 0
      ensures forall p :: 0 <= p < capacity ==> buckets[p].Empty?
      ensures Clean(buckets[..], hash) && LiveCount(buckets[..]) == 0 && Mapping(buckets[..]) == map[]
    {
      this.hash := hash;
      this.capacity := capacity;
      buckets := new Slot<V>[capacity](_ => Empty);
      size := 0;
      new;
      EmptyTable(buckets[..], hash);
    }

    /** size / capacity, exactly. */
    function TableLoad(): (r: real)
      reads this
      requires capacity >= 1
      ensures r * capacity as real == size as real
      ensures r >= 0.5 <==> 2 * size >= capacity
    {
      LoadHalf(size, capacity);
      size as real / capacity as real
    }

    /**
     * put. When the load is at least one half (and size is positive) the
     * table first doubles its capacity; then the key is stored as Insert
     * says, in place, in the (possibly new) bucket array `mid`.
     */
    method Put(key: string, value: V) returns (loops: bool, ghost mid: seq<Slot<V>>, ghost stuck: seq<Slot<V>>, ghost stuckKey: string)
      requires Valid() && capacity >= 1
      modifies this, buckets
      ensures Valid() && capacity >= old(capacity)
      ensures buckets == old(buckets) || fresh(buckets)
      ensures var grow := old(size) > 0 && 2 * old(size) >= old(capacity);
              !grow ==> mid == old(buckets[..]) && buckets == old(buckets) && capacity == old(capacity) &&
                        (loops <==> Insert(mid, hash(key), key, value) == Loops)
      ensures loops ==> PutDiverges(stuck, hash(stuckKey), stuckKey) &&
                        (stuckKey == key || stuckKey in Mapping(old(buckets[..])))
      ensures var grow := old(size) > 0 && 2 * old(size) >= old(capacity);
              loops && !grow ==> stuck == old(buckets[..]) && stuckKey == key
      ensures var grow := old(size) > 0 && 2 * old(size) >= old(capacity);
              loops && grow ==> Clean(stuck, hash) && |stuck| >= 2 * old(capacity)
      ensures var grow := old(size) > 0 && 2 * old(size) >= old(capacity);
              grow && !loops ==>
                |mid| >= 2 * old(capacity) && Clean(mid, hash) &&
                Mapping(mid) == Mapping(old(buckets[..])) && LiveCount(mid) <= old(LiveCount(buckets[..]))
      ensures var grow := old(size) > 0 && 2 * old(size) >= old(capacity);
              !loops ==>
                |mid| == capacity && Insert(mid, hash(key), key, value).Returns? &&
                buckets[..] == Insert(mid, hash(key), key, value).value.0 &&
                size == (if grow then LiveCount(mid) else old(size)) + Insert(mid, hash(key), key, value).value.1
      ensures !loops ==> LiveCount(buckets[..]) <= old(LiveCount(buckets[..])) + 1
      ensures var grow := old(size) > 0 && 2 * old(size) >= old(capacity);
              !loops && (grow || (Clean(old(buckets[..]), hash) && old(size) == old(LiveCount(buckets[..])))) ==>
                Clean(buckets[..], hash) && size == LiveCount(buckets[..]) &&
                Mapping(buckets[..]) == Mapping(old(buckets[..]))[key := value]
      decreases PutRank(), 1
    {
      ghost var grow := size > 0 && 2 * size >= capacity;
      loops, mid, stuck, stuckKey := false, buckets[..], [], "";
      if size > 0 {
        if TableLoad() >= 0.5 {
          LiveCountBound(buckets[..]);
          loops, stuck, stuckKey := ResizeTable(capacity * 2);
          if loops {
            return;
          }
        }
      }
      mid := buckets[..];
      ghost var midSize := size;
      loops := Store(key, value);
      if !loops {
        PutFacts(mid, key, value, grow, midSize);
      } else {
        InsertLoops(mid, hash(key), key, value);
        stuck, stuckKey := mid, key;
      }
    }

    /**
     * The part of put after the load check: the walk from the key's home
     * slot, storing the key in place as Insert says.
     */
    method Store(key: string, value: V) returns (loops: bool)
      requires Valid() && capacity >= 1
      modifies this, buckets
      ensures buckets == old(buckets) && capacity == old(capacity)
      ensures loops <==> Insert(old(buckets[..]), hash(key), key, value) == Loops
      ensures !loops ==> buckets[..] == Insert(old(buckets[..]), hash(key), key, value).value.0 &&
                         size == old(size) + Insert(old(buckets[..]), hash(key), key, value).value.1
      ensures loops ==> buckets[..] == old(buckets[..]) && size == old(size)
    {
      loops := false;
      ghost var mid := buckets[..];
      var index := hash(key) % capacity;
      if buckets[index].Empty? {
        buckets[index] := Entry(key, value, false);
        size := size + 1;
      } else if buckets[index].key == key {
        buckets[index] := buckets[index].(value := value);
        if buckets[index].tomb {
          buckets[index] := buckets[index].(tomb := false);
          size := size + 1;
        }
      } else {
        var j: nat := 0;
        var i := index;
        ghost var t: nat := 0;
        while buckets[i].Entry?
          invariant buckets[..] == mid && size == old(size)
          invariant j <= capacity && t == (if j == 0 then 0 else j - 1)
          invariant i == ProbeIndex(index, t, capacity)
          invariant j >= 1 ==> !mid[index].tomb
          invariant Blocked(mid, key, index, 0, t, false)
          decreases capacity - j
        {
          if buckets[index].tomb {
            buckets[i] := Entry(key, value, false);
            return;
          } else if buckets[i].key == key {
            buckets[i] := buckets[i].(value := value);
            FirstStopIsFirst(mid, key, index, 0, false, t);
            return;
          } else {
            if j == capacity {
              FirstStopIsFirst(mid, key, index, 0, false, 0);
              loops := true;
              return;
            }
            i := (index + j * j) % capacity;
            t := j;
            j := j + 1;
          }
        }
        FirstStopIsFirst(mid, key, index, 0, false, t);
        buckets[i] := Entry(key, value, false);
        size := size + 1;
      }
    }


    /** What Put's final state gives, from the facts about Insert. */
    lemma PutFacts(mid: seq<Slot<V>>, key: string, value: V, grow: bool, midSize: int)
      requires |mid| >= 1 && Insert(mid, hash(key), key, value).Returns?
      requires midSize <= LiveCount(mid)
      requires grow ==> Clean(mid, hash) && midSize == LiveCount(mid)
      ensures var (s', added) := Insert(mid, hash(key), key, value).value;
              midSize + added <= LiveCount(s') <= LiveCount(mid) + 1 &&
              (Clean(mid, hash) && midSize == LiveCount(mid) ==>
                 Clean(s', hash) && midSize + added == LiveCount(s') &&
                 Mapping(s') == Mapping(mid)[key := value])
    {
      InsertAccounting(mid, hash(key), key, value);
      if Clean(mid, hash) {
        InsertClean(mid, hash, key, value);
      }
    }

    /**
     * resize_table. Nothing happens when the new capacity is below one or
     * below size; otherwise every live entry, in slot order, is put into a
     * new table of that capacity (which may itself grow), and this table takes
     * over its buckets, capacity and size. When one of those puts would
     * probe forever, `stuck` is the clean table it was put into (of at least
     * the new capacity) and `stuckKey` the key of this table it was putting.
     */
    method ResizeTable(newCapacity: int) returns (loops: bool, ghost stuck: seq<Slot<V>>, ghost stuckKey: string)
      requires Valid()
      modifies this
      ensures Valid()
      ensures newCapacity < 1 || newCapacity < old(size) || loops ==>
                capacity == old(capacity) && buckets == old(buckets) && size == old(size)
      ensures newCapacity < 1 || newCapacity < old(size) ==> !loops
      ensures loops ==> |stuck| >= newCapacity && Clean(stuck, hash) &&
                        stuckKey in Mapping(old(buckets[..])) && PutDiverges(stuck, hash(stuckKey), stuckKey)
      ensures !(newCapacity < 1 || newCapacity < old(size)) && !loops ==>
                fresh(buckets) && capacity >= newCapacity && Clean(buckets[..], hash) &&
                size == LiveCount(buckets[..]) && Mapping(buckets[..]) == Mapping(old(buckets[..])) &&
                LiveCount(buckets[..]) <= old(LiveCount(buckets[..]))
      decreases ResizeRank(newCapacity), 3
    {
      loops, stuck, stuckKey := false, [], "";
      if newCapacity < 1 {
        return;
      }
      if newCapacity < size {
        return;
      }
      var temp;
      temp, loops, stuck, stuckKey := Rehashed(newCapacity);
      if !loops {
        capacity, buckets, size := temp.capacity, temp.buckets, temp.size;
      }
    }

    /**
     * The temporary table of resize_table: every live entry, in slot order,
     * put into a new table of `newCapacity` slots. Unless one of those puts
     * would probe forever, it is clean, holds the same map with no more live
     * slots, and counts them exactly.
     */
    method Rehashed(newCapacity: nat) returns (temp: HashMap<V>, loops: bool, ghost stuck: seq<Slot<V>>, ghost stuckKey: string)
      requires Valid() && newCapacity >= 1 && newCapacity >= size
      ensures fresh(temp) && fresh(temp.buckets) && temp.Valid() && temp.hash == hash
      ensures loops ==> |stuck| >= newCapacity && Clean(stuck, hash) &&
                        stuckKey in Mapping(buckets[..]) && PutDiverges(stuck, hash(stuckKey), stuckKey)
      ensures !loops ==>
                temp.capacity >= newCapacity && Clean(temp.buckets[..], hash) &&
                temp.size == LiveCount(temp.buckets[..]) && Mapping(temp.buckets[..]) == Mapping(buckets[..]) &&
                LiveCount(temp.buckets[..]) <= LiveCount(buckets[..])
      decreases ResizeRank(newCapacity), 2
    {
      loops, stuck, stuckKey := false, [], "";
      temp := new HashMap<V>(newCapacity, hash);
      for i := 0 to capacity
        invariant fresh(temp) && fresh(temp.buckets) && temp.Valid() && temp.hash == hash
        invariant temp.capacity >= newCapacity
        invariant Clean(temp.buckets[..], hash) && temp.size == LiveCount(temp.buckets[..])
        invariant Mapping(temp.buckets[..]) == Mapping(buckets[..i])
        invariant LiveCount(temp.buckets[..]) <= LiveCount(buckets[..i])
      {
        LiveCountStep(buckets[..], i);
        assert buckets[..][..i] == buckets[..i] && buckets[..][..i + 1] == buckets[..i + 1];
        var bucket := buckets[i];
        if bucket.Entry? {
          if !bucket.tomb {
            LiveCountPrefix(buckets[..], i + 1);
            ghost var before, tempMid := temp.buckets[..], [];
            loops, tempMid, stuck, stuckKey := temp.Put(buckets[i].key, buckets[i].value);
            if loops {
              if stuckKey in Mapping(before) {
                MappingPrefixKeys(buckets[..], i, stuckKey);
              } else {
                MappingKeys(buckets[..], stuckKey);
              }
              return;
            }
          }
        }
      }
      assert buckets[..capacity] == buckets[..];
    }

    /** get: the value stored for `key`, found by walking the probe sequence. */
    method Get(key: string) returns (r: Option<V>, loops: bool)
      requires Valid() && capacity >= 1
      ensures loops <==> Lookup(buckets[..], hash(key), key) == Loops
      ensures !loops ==> Lookup(buckets[..], hash(key), key) == Returns(r)
    {
      var index := hash(key) % capacity;
      if buckets[index].Empty? {
        return None, false;
      }
      var j: nat := 0;
      var i := (index + j * j) % capacity;
      while buckets[i].Entry?
        invariant j < capacity && i == ProbeIndex(index, j, capacity)
        invariant Blocked(buckets[..], key, index, 0, j, true)
        decreases capacity - j
      {
        if buckets[i].key == key {
          if !buckets[i].tomb {
            FirstStopIsFirst(buckets[..], key, index, 0, true, j);
            return Some(buckets[i].value), false;
          }
        }
        j := j + 1;
        if j == capacity {
          FirstStopIsFirst(buckets[..], key, index, 0, true, 0);
          return None, true;
        }
        i := (index + j * j) % capacity;
      }
      FirstStopIsFirst(buckets[..], key, index, 0, true, j);
      return None, false;
    }

    /** contains_key: whether the walk reaches a live slot carrying `key`. */
    method ContainsKey(key: string) returns (r: bool, loops: bool)
      requires Valid()
      ensures size >= 1 ==> capacity >= 1
      ensures loops <==> Contains(buckets[..], size, hash(key), key) == Loops
      ensures !loops ==> Contains(buckets[..], size, hash(key), key) == Returns(r)
    {
      LiveCountBound(buckets[..]);
      if size < 1 {
        return false, false;
      }
      var index := hash(key) % capacity;
      if buckets[index].Empty? {
        return false, false;
      }
      var j: nat := 0;
      var i := (index + j * j) % capacity;
      while buckets[i].Entry?
        invariant j < capacity && i == ProbeIndex(index, j, capacity)
        invariant Blocked(buckets[..], key, index, 0, j, false)
        decreases capacity - j
      {
        if buckets[i].key == key {
          FirstStopIsFirst(buckets[..], key, index, 0, false, j);
          if !buckets[i].tomb {
            return true, false;
          } else {
            return false, false;
          }
        }
        j := j + 1;
        if j == capacity {
          FirstStopIsFirst(buckets[..], key, index, 0, false, 0);
          return false, true;
        }
        i := (index + j * j) % capacity;
      }
      FirstStopIsFirst(buckets[..], key, index, 0, false, j);
      return false, false;
    }

    /** remove: tombstones the first slot on the walk carrying `key`, if it is live. */
    method Remove(key: string) returns (loops: bool)
      requires Valid() && capacity >= 1
      modifies this, buckets
      ensures Valid() && buckets == old(buckets) && capacity == old(capacity)
      ensures loops <==> Removal(old(buckets[..]), hash(key), key) == Loops
      ensures !loops ==>
                match Removal(old(buckets[..]), hash(key), key).value
                case None => buckets[..] == old(buckets[..]) && size == old(size)
                case Some(p) =>
                  p < capacity && buckets[..] == old(buckets[..])[p := old(buckets[p]).(tomb := true)] &&
                  size == old(size) - 1 && LiveCount(buckets[..]) == old(LiveCount(buckets[..])) - 1
      ensures !loops && Clean(old(buckets[..]), hash) ==> Mapping(buckets[..]) == Mapping(old(buckets[..])) - {key}
    {
      loops := false;
      var index := hash(key) % capacity;
      if buckets[index].Empty? {
        if Clean(buckets[..], hash) {
          CleanRemoval(buckets[..], hash, key);
        }
        return;
      }
      ghost var before := buckets[..];
      var j: nat := 0;
      var i := (index + j * j) % capacity;
      while buckets[i].Entry?
        invariant j < capacity && i == ProbeIndex(index, j, capacity)
        invariant Blocked(before, key, index, 0, j, false)
        invariant buckets[..] == before && size == old(size)
        decreases capacity - j
      {
        if buckets[i].key == key {
          FirstStopIsFirst(before, key, index, 0, false, j);
          if !buckets[i].tomb {
            buckets[i] := buckets[i].(tomb := true);
            size := size - 1;
            RemovalTombstones(before, hash(key), key, i);
            if Clean(before, hash) {
              CleanUnique(before, hash);
            }
          } else if Clean(before, hash) {
            CleanRemoval(before, hash, key);
          }
          return;
        }
        j := j + 1;
        if j == capacity {
          FirstStopIsFirst(before, key, index, 0, false, 0);
          loops := true;
          return;
        }
        i := (index + j * j) % capacity;
      }
      FirstStopIsFirst(before, key, index, 0, false, j);
      if Clean(before, hash) {
        CleanRemoval(before, hash, key);
      }
    }

    /** clear: size 0 and a new array of `capacity` empty buckets. */
    method Clear()
      requires Valid()
      modifies this
      ensures Valid() && capacity == old(capacity) && size == 0 && fresh(buckets)
      ensures forall p :: 0 <= p < capacity ==> buckets[p].Empty?
      ensures Clean(buckets[..], hash) && LiveCount(buckets[..]) == 0 && Mapping(buckets[..]) == map[]
    {
      size := 0;
      buckets := new Slot<V>[capacity](_ => Empty);
      EmptyTable(buckets[..], hash);
    }

    /** empty_buckets: slots that are empty or tombstoned, i.e. not live. */
    method EmptyBuckets() returns (count: nat)
      requires Valid()
      ensures count == capacity - LiveCount(buckets[..])
    {
      count := 0;
      for i := 0 to capacity
        invariant count == i - LiveCount(buckets[..i])
      {
        LiveCountStep(buckets[..], i);
        assert buckets[..][..i] == buckets[..i] && buckets[..][..i + 1] == buckets[..i + 1];
        var bucket := buckets[i];
        if bucket.Empty? || bucket.tomb {
          count := count + 1;
        }
      }
      assert buckets[..capacity] == buckets[..];
    }

    /** get_keys: the keys of the live slots in slot order, which are the keys of the map. */
    method GetKeys() returns (keys: seq<string>)
      requires Valid()
      ensures keys == LiveKeys(buckets[..]) && |keys| == LiveCount(buckets[..])
      ensures forall k :: k in keys <==> k in Mapping(buckets[..])
    {
      keys := [];
      for i := 0 to buckets.Length
        invariant keys == LiveKeys(buckets[..i])
      {
        LiveCountStep(buckets[..], i);
        assert buckets[..][..i] == buckets[..i] && buckets[..][..i + 1] == buckets[..i + 1];
        if buckets[i].Entry? && !buckets[i].tomb {
          keys := keys + [buckets[i].key];
        }
      }
      assert buckets[..buckets.Length] == buckets[..];
      LiveKeysCount(buckets[..]);
    }
  }

  /** A table of empty buckets is clean and stands for the empty map. */
  lemma {:induction false} EmptyTable<V>(slots: seq<Slot<V>>, hash: string -> nat)
    requires forall p :: 0 <= p < |slots| ==> slots[p].Empty?
    ensures Clean(slots, hash) && LiveCount(slots) == 0 && Mapping(slots) == map[]
    decreases |slots|
  {
    if |slots| > 0 {
      EmptyTable(slots[..|slots| - 1], hash);
    }
  }

  /** The load factor test of put, size / capacity >= 0.5, in integers. */
  lemma LoadHalf(size: int, capacity: nat)
    requires capacity >= 1
    ensures (size as real / capacity as real) * capacity as real == size as real
    ensures size as real / capacity as real >= 0.5 <==> 2 * size >= capacity
  {
  }
}

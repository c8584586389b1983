/**
 * The chains of the separate-chaining table. A chain (the `LinkedList` of
 * the source's helper module) is a sequence of key/value nodes, head first.
 * Its operations are the ones the table calls: contains (the first node
 * carrying a key), insert (at the head), remove (the first node carrying a
 * key) and assigning the value of a node. The bucket array as a whole stands
 * for the map of its concatenated chains.
 */
module Chains {
  import opened Common

  type Chain<V> = seq<(string, V)>

  /** The keys of a chain, head first. */
  function Keys<V>(c: Chain<V>): (ks: seq<string>)
    ensures |ks| == |c| && forall i :: 0 <= i < |c| ==> ks[i] == c[i].0
  {
    if |c| == 0 then [] else [c[0].0] + Keys(c[1..])
  }

  /** No key occurs twice. */
  predicate UniqueKeys<V>(c: Chain<V>) {
    forall i, j :: 0 <= i < j < |c| ==> c[i].0 != c[j].0
  }

  /** The map a chain stands for; a node nearer the head hides later ones with the same key. */
  function ToMap<V>(c: Chain<V>): map<string, V>
  {
    if |c| == 0 then map[] else ToMap(c[1..])[c[0].0 := c[0].1]
  }

  /** LinkedList.contains: the value of the first node carrying `key`. */
  function Find<V>(c: Chain<V>, key: string): Option<V>
  {
    if |c| == 0 then None
    else if c[0].0 == key then Some(c[0].1)
    else Find(c[1..], key)
  }

  /** Assigning `value` to the node that LinkedList.contains returns. */
  function Update<V>(c: Chain<V>, key: string, value: V): Chain<V>
  {
    if |c| == 0 then []
    else if c[0].0 == key then [(key, value)] + c[1..]
    else [c[0]] + Update(c[1..], key, value)
  }

  /** LinkedList.insert: a new node at the head. */
  function Prepend<V>(c: Chain<V>, key: string, value: V): (r: Chain<V>)
    ensures Keys(r) == [key] + Keys(c) && ToMap(r) == ToMap(c)[key := value]
  {
    assert ([(key, value)] + c)[1..] == c;
    [(key, value)] + c
  }

  /** LinkedList.remove: unlinks the first node carrying `key` and reports whether there was one. */
  function RemoveFirst<V>(c: Chain<V>, key: string): (Chain<V>, bool)
  {
    if |c| == 0 then ([], false)
    else if c[0].0 == key then (c[1..], true)
    else
      var (rest, found) := RemoveFirst(c[1..], key);
      ([c[0]] + rest, found)
  }

  /** The chains of a bucket array one after another, in bucket order. */
  function Flat<V>(bs: seq<Chain<V>>): seq<(string, V)>
  {
    if |bs| == 0 then [] else bs[0] + Flat(bs[1..])
  }

  /** Every key of the chain has home bucket `i` in a table of `cap` buckets. */
  predicate Homed<V>(c: Chain<V>, hash: string -> nat, cap: nat, i: nat) {
    forall j :: 0 <= j < |c| ==> cap >= 1 && hash(c[j].0) % cap == i
  }

  /** Chain `i` of `bs` holds keys homed at `lo + i`, each chain without repeated keys. */
  predicate HomedFrom<V>(bs: seq<Chain<V>>, hash: string -> nat, cap: nat, lo: nat) {
    forall i :: 0 <= i < |bs| ==> Homed(bs[i], hash, cap, lo + i) && UniqueKeys(bs[i])
  }

  // ---------------------------------------------------------------------
  // One chain.
  // ---------------------------------------------------------------------

  /** The map's keys are the chain's keys. */
  lemma {:induction false} ToMapKeys<V>(c: Chain<V>, key: string)
    ensures key in ToMap(c) <==> key in Keys(c)
    decreases |c|
  {
    if |c| > 0 {
      ToMapKeys(c[1..], key);
    }
  }

  /** contains finds a key exactly when the chain's map has it, with its value. */
  lemma {:induction false} FindToMap<V>(c: Chain<V>, key: string)
    ensures Find(c, key) == if key in ToMap(c) then Some(ToMap(c)[key]) else None
    decreases |c|
  {
    if |c| > 0 && c[0].0 != key {
      FindToMap(c[1..], key);
    }
  }

  /** In a chain without repeated keys the map holds each node's value. */
  lemma {:induction false} ToMapAt<V>(c: Chain<V>, i: nat)
    requires UniqueKeys(c) && i < |c|
    ensures c[i].0 in ToMap(c) && ToMap(c)[c[i].0] == c[i].1
    decreases i
  {
    if i > 0 {
      ToMapAt(c[1..], i - 1);
    }
  }

  /** Assigning the value of the node for a present key updates the map there and no key changes. */
  lemma {:induction false} UpdateToMap<V>(c: Chain<V>, key: string, value: V)
    requires Find(c, key).Some?
    ensures Keys(Update(c, key, value)) == Keys(c)
    ensures ToMap(Update(c, key, value)) == ToMap(c)[key := value]
    decreases |c|
  {
    if c[0].0 != key {
      UpdateToMap(c[1..], key, value);
      assert Update(c, key, value)[1..] == Update(c[1..], key, value);
    } else {
      assert Update(c, key, value)[1..] == c[1..];
    }
  }

  /**
   * remove reports success exactly when the key is present; without repeated
   * keys it takes the key out of the map, one node shorter, and leaves no key
   * that was not there before.
   */
  lemma {:induction false} RemoveFirstToMap<V>(c: Chain<V>, key: string)
    requires UniqueKeys(c)
    ensures var (c', found) := RemoveFirst(c, key);
            (found <==> key in ToMap(c)) && |c'| == |c| - (if found then 1 else 0) &&
            ToMap(c') == ToMap(c) - {key} && UniqueKeys(c') &&
            (forall k :: k in Keys(c') ==> k in Keys(c))
    decreases |c|
  {
    if |c| > 0 {
      var (rest, found) := RemoveFirst(c[1..], key);
      ToMapKeys(c[1..], key);
      if c[0].0 == key {
        assert key !in Keys(c[1..]);
      } else {
        RemoveFirstToMap(c[1..], key);
        var c' := [c[0]] + rest;
        assert c'[1..] == rest;
        ToMapKeys(rest, c[0].0);
        assert c[0].0 !in Keys(c[1..]);
        forall k | k in Keys(c')
          ensures k in Keys(c)
        {
          if k != c[0].0 {
            assert k in Keys(rest);
          }
        }
      }
    }
  }

  /** remove of a key the chain does not hold reports failure and leaves the chain as it is. */
  lemma {:induction false} RemoveFirstAbsent<V>(c: Chain<V>, key: string)
    requires key !in Keys(c)
    ensures RemoveFirst(c, key) == (c, false)
    decreases |c|
  {
    if |c| > 0 {
      RemoveFirstAbsent(c[1..], key);
      assert [c[0]] + c[1..] == c;
    }
  }

  /** A chain whose keys are homed at `i` holds keys that are. */
  lemma HomedKey<V>(c: Chain<V>, hash: string -> nat, cap: nat, i: nat, key: string)
    requires Homed(c, hash, cap, i) && key in Keys(c)
    ensures cap >= 1 && hash(key) % cap == i
  {
  }

  // ---------------------------------------------------------------------
  // The concatenated chains.
  // ---------------------------------------------------------------------

  lemma {:induction false} FlatConcat<V>(a: seq<Chain<V>>, b: seq<Chain<V>>)
    ensures Flat(a + b) == Flat(a) + Flat(b)
    decreases |a|
  {
    if |a| == 0 {
      assert a + b == b;
    } else {
      assert (a + b)[1..] == a[1..] + b;
      FlatConcat(a[1..], b);
    }
  }

  /** The chains up to bucket i + 1 are those up to bucket i followed by chain i. */
  lemma FlatPrefixStep<V>(bs: seq<Chain<V>>, i: nat)
    requires i < |bs|
    ensures Flat(bs[..i + 1]) == Flat(bs[..i]) + bs[i]
  {
    assert bs[..i + 1] == bs[..i] + [bs[i]];
    FlatConcat(bs[..i], [bs[i]]);
    assert Flat([bs[i]]) == bs[i] + Flat([bs[i]][1..]);
  }

  /** Cutting the bucket array at i cuts the concatenation at the same place. */
  lemma FlatSplit<V>(bs: seq<Chain<V>>, i: nat)
    requires i < |bs|
    ensures Flat(bs) == Flat(bs[..i]) + bs[i] + Flat(bs[i + 1..])
  {
    assert bs == bs[..i] + bs[i..];
    FlatConcat(bs[..i], bs[i..]);
    assert bs[i..][1..] == bs[i + 1..];
  }

  /** The j-th node of chain i sits at |Flat(bs[..i])| + j of the concatenation. */
  lemma FlatIndex<V>(bs: seq<Chain<V>>, i: nat, j: nat)
    requires i < |bs| && j < |bs[i]|
    ensures |Flat(bs[..i])| + j < |Flat(bs)| && Flat(bs)[|Flat(bs[..i])| + j] == bs[i][j]
  {
    FlatSplit(bs, i);
  }

  lemma {:induction false} ToMapConcat<V>(a: Chain<V>, b: Chain<V>)
    ensures ToMap(a + b) == ToMap(b) + ToMap(a)
    decreases |a|
  {
    if |a| == 0 {
      assert a + b == b;
    } else {
      assert (a + b)[1..] == a[1..] + b;
      ToMapConcat(a[1..], b);
    }
  }

  lemma HomedFromRest<V>(bs: seq<Chain<V>>, hash: string -> nat, cap: nat, lo: nat)
    requires HomedFrom(bs, hash, cap, lo) && |bs| > 0
    ensures HomedFrom(bs[1..], hash, cap, lo + 1)
  {
    var rest := bs[1..];
    forall i | 0 <= i < |rest|
      ensures Homed(rest[i], hash, cap, lo + 1 + i) && UniqueKeys(rest[i])
    {
      assert rest[i] == bs[i + 1];
    }
  }

  /** In an array of homed chains, every node of the concatenation is homed within the array. */
  lemma {:induction false} FlatHomes<V>(bs: seq<Chain<V>>, hash: string -> nat, cap: nat, lo: nat)
    requires HomedFrom(bs, hash, cap, lo)
    ensures forall p :: 0 <= p < |Flat(bs)| ==> cap >= 1 && lo <= hash(Flat(bs)[p].0) % cap < lo + |bs|
    decreases |bs|
  {
    if |bs| > 0 {
      var rest := bs[1..];
      HomedFromRest(bs, hash, cap, lo);
      FlatHomes(rest, hash, cap, lo + 1);
      var f := Flat(bs);
      assert f == bs[0] + Flat(rest);
      forall p | 0 <= p < |f|
        ensures cap >= 1 && lo <= hash(f[p].0) % cap < lo + |bs|
      {
        if p >= |bs[0]| {
          assert f[p] == Flat(rest)[p - |bs[0]|];
        } else {
          assert f[p] == bs[0][p] && Homed(bs[0], hash, cap, lo + 0);
        }
      }
    }
  }

  /** In an array of homed chains, no key occurs twice in the concatenation. */
  lemma {:induction false} FlatHomed<V>(bs: seq<Chain<V>>, hash: string -> nat, cap: nat, lo: nat)
    requires HomedFrom(bs, hash, cap, lo)
    ensures UniqueKeys(Flat(bs))
    decreases |bs|
  {
    if |bs| > 0 {
      var rest := bs[1..];
      HomedFromRest(bs, hash, cap, lo);
      FlatHomed(rest, hash, cap, lo + 1);
      FlatHomes(rest, hash, cap, lo + 1);
      var f := Flat(bs);
      assert f == bs[0] + Flat(rest);
      forall p, q | 0 <= p < q < |f|
        ensures f[p].0 != f[q].0
      {
        if p < |bs[0]| && q >= |bs[0]| {
          assert f[q] == Flat(rest)[q - |bs[0]|];
        } else if p >= |bs[0]| {
          assert f[p] == Flat(rest)[p - |bs[0]|] && f[q] == Flat(rest)[q - |bs[0]|];
        }
      }
    }
  }

  /** The whole map at a key is the map of the key's home chain. */
  lemma {:induction false} FlatAt<V>(bs: seq<Chain<V>>, hash: string -> nat, cap: nat, lo: nat, key: string)
    requires HomedFrom(bs, hash, cap, lo) && cap >= 1 && lo <= hash(key) % cap < lo + |bs|
    ensures var c := bs[hash(key) % cap - lo];
            (key in ToMap(Flat(bs)) <==> key in ToMap(c)) &&
            (key in ToMap(c) ==> ToMap(Flat(bs))[key] == ToMap(c)[key])
    decreases |bs|
  {
    var rest := bs[1..];
    assert Flat(bs) == bs[0] + Flat(rest);
    ToMapConcat(bs[0], Flat(rest));
    HomedFromRest(bs, hash, cap, lo);
    if hash(key) % cap == lo {
      FlatHomes(rest, hash, cap, lo + 1);
      ToMapKeys(Flat(rest), key);
    } else {
      FlatAt(rest, hash, cap, lo + 1, key);
      ToMapKeys(bs[0], key);
      if key in Keys(bs[0]) {
        HomedKey(bs[0], hash, cap, lo, key);
      }
    }
  }

  /** Extending a prefix of a sequence without repeated keys by one node adds that node to the map. */
  lemma ToMapSnoc<V>(s: seq<(string, V)>, p: nat)
    requires UniqueKeys(s) && p < |s|
    ensures s[p].0 !in ToMap(s[..p])
    ensures ToMap(s[..p + 1]) == ToMap(s[..p])[s[p].0 := s[p].1]
  {
    assert s[..p + 1] == s[..p] + [s[p]];
    ToMapConcat(s[..p], [s[p]]);
    ToMapKeys(s[..p], s[p].0);
    assert ToMap([s[p]]) == map[s[p].0 := s[p].1] by {
      assert [s[p]][1..] == [];
    }
  }

  // ---------------------------------------------------------------------
  // Writing one chain back into the bucket array.
  // ---------------------------------------------------------------------

  /** An array of empty chains is well homed and stands for no entries. */
  lemma {:induction false} FlatEmpty<V>(bs: seq<Chain<V>>, hash: string -> nat, cap: nat)
    requires forall i :: 0 <= i < |bs| ==> bs[i] == []
    ensures HomedFrom(bs, hash, cap, 0) && Flat(bs) == [] && ToMap(Flat(bs)) == map[]
    decreases |bs|
  {
    if |bs| > 0 {
      FlatEmpty(bs[1..], hash, cap);
    }
  }

  /** Inserting a new key homed at `i` at the head keeps the chain homed there and without repeats. */
  lemma PrependHomed<V>(c: Chain<V>, hash: string -> nat, cap: nat, i: nat, key: string, value: V)
    requires Homed(c, hash, cap, i) && UniqueKeys(c) && cap >= 1 && hash(key) % cap == i
    requires Find(c, key).None?
    ensures Homed(Prepend(c, key, value), hash, cap, i) && UniqueKeys(Prepend(c, key, value))
  {
    FindToMap(c, key);
    ToMapKeys(c, key);
    var r := Prepend(c, key, value);
    assert r[1..] == c;
    forall a, b | 0 <= a < b < |r|
      ensures r[a].0 != r[b].0
    {
      if a == 0 {
        assert Keys(c)[b - 1] == r[b].0;
      } else {
        assert r[a] == c[a - 1] && r[b] == c[b - 1];
      }
    }
  }

  /** Assigning the value of a node changes no key. */
  lemma UpdateHomed<V>(c: Chain<V>, hash: string -> nat, cap: nat, i: nat, key: string, value: V)
    requires Homed(c, hash, cap, i) && UniqueKeys(c) && Find(c, key).Some?
    ensures Homed(Update(c, key, value), hash, cap, i) && UniqueKeys(Update(c, key, value))
    ensures |Update(c, key, value)| == |c|
  {
    UpdateToMap(c, key, value);
    var r := Update(c, key, value);
    assert |Keys(r)| == |Keys(c)|;
    forall j | 0 <= j < |r|
      ensures r[j].0 == c[j].0
    {
      assert Keys(r)[j] == Keys(c)[j];
    }
  }

  /** Removing a node keeps the rest of the chain homed. */
  lemma RemoveFirstHomed<V>(c: Chain<V>, hash: string -> nat, cap: nat, i: nat, key: string)
    requires Homed(c, hash, cap, i) && UniqueKeys(c)
    ensures Homed(RemoveFirst(c, key).0, hash, cap, i) && UniqueKeys(RemoveFirst(c, key).0)
  {
    RemoveFirstToMap(c, key);
    var r := RemoveFirst(c, key).0;
    forall j | 0 <= j < |r|
      ensures hash(r[j].0) % cap == i && cap >= 1
    {
      assert Keys(r)[j] == r[j].0;
      HomedKey(c, hash, cap, i, r[j].0);
    }
  }

  /**
   * Writing chain `c'` into the home bucket of `key`: the array stays homed,
   * its length changes by the difference of the two chains, and when `c'`
   * agrees with the old chain on every other key, the whole map changes at
   * `key` only, where it is what `c'` says.
   */
  lemma ReplaceChain<V>(bs: seq<Chain<V>>, hash: string -> nat, key: string, c': Chain<V>)
    requires HomedFrom(bs, hash, |bs|, 0) && |bs| >= 1
    requires Homed(c', hash, |bs|, hash(key) % |bs|) && UniqueKeys(c')
    requires var c := bs[hash(key) % |bs|];
             forall k :: k != key ==> (k in ToMap(c') <==> k in ToMap(c)) && (k in ToMap(c) ==> ToMap(c')[k] == ToMap(c)[k])
    ensures var bs' := bs[hash(key) % |bs| := c'];
            HomedFrom(bs', hash, |bs|, 0) &&
            |Flat(bs')| == |Flat(bs)| - |bs[hash(key) % |bs|]| + |c'|
    ensures var m, m' := ToMap(Flat(bs)), ToMap(Flat(bs[hash(key) % |bs| := c']));
            (forall k :: k != key ==> (k in m' <==> k in m) && (k in m ==> m'[k] == m[k])) &&
            (key in m' <==> key in ToMap(c')) && (key in m' ==> m'[key] == ToMap(c')[key])
  {
    var h := hash(key) % |bs|;
    var bs' := bs[h := c'];
    FlatSplit(bs, h);
    FlatSplit(bs', h);
    assert bs'[..h] == bs[..h] && bs'[h + 1..] == bs[h + 1..];
    var m, m' := ToMap(Flat(bs)), ToMap(Flat(bs'));
    forall k
      ensures k != key ==> (k in m' <==> k in m) && (k in m ==> m'[k] == m[k])
      ensures k == key ==> (key in m' <==> key in ToMap(c')) && (key in m' ==> m'[key] == ToMap(c')[key])
    {
      FlatAt(bs, hash, |bs|, 0, k);
      FlatAt(bs', hash, |bs|, 0, k);
    }
  }

  // ---------------------------------------------------------------------
  // Putting nodes one by one, as rehashing does.
  // ---------------------------------------------------------------------

  /** The map after putting the nodes of `c` into `m` in order, later nodes overwriting earlier ones. */
  function PutAll<V>(m: map<string, V>, c: Chain<V>): map<string, V>
  {
    if |c| == 0 then m else PutAll(m, c[..|c| - 1])[c[|c| - 1].0 := c[|c| - 1].1]
  }

  /** Putting one more node of `c`. */
  lemma PutAllStep<V>(m: map<string, V>, c: Chain<V>, j: nat)
    requires j < |c|
    ensures PutAll(m, c[..j + 1]) == PutAll(m, c[..j])[c[j].0 := c[j].1]
  {
    assert c[..j + 1][..j] == c[..j];
  }

  /** Putting nodes adds exactly their keys. */
  lemma {:induction false} PutAllKeys<V>(m: map<string, V>, c: Chain<V>, k: string)
    ensures k in PutAll(m, c) <==> k in m || k in Keys(c)
    decreases |c|
  {
    if |c| > 0 {
      var init := c[..|c| - 1];
      PutAllKeys(m, init, k);
      if k in Keys(c) {
        var q :| 0 <= q < |c| && Keys(c)[q] == k;
        if q < |c| - 1 {
          assert Keys(init)[q] == k;
        }
      }
      if k in Keys(init) {
        var q :| 0 <= q < |init| && Keys(init)[q] == k;
        assert Keys(c)[q] == k;
      }
      assert Keys(c)[|c| - 1] == c[|c| - 1].0;
    }
  }

  /** Putting `a` and then `b` is putting `a + b`. */
  lemma {:induction false} PutAllConcat<V>(m: map<string, V>, a: Chain<V>, b: Chain<V>)
    ensures PutAll(m, a + b) == PutAll(PutAll(m, a), b)
    decreases |b|
  {
    if |b| == 0 {
      assert a + b == a;
    } else {
      assert (a + b)[..|a + b| - 1] == a + b[..|b| - 1];
      PutAllConcat(m, a, b[..|b| - 1]);
    }
  }

  /** Without repeated keys, putting the nodes into an empty map builds the chain's map. */
  lemma {:induction false} PutAllToMap<V>(c: Chain<V>)
    requires UniqueKeys(c)
    ensures PutAll(map[], c) == ToMap(c)
    decreases |c|
  {
    if |c| == 0 {
    } else {
      var n := |c| - 1;
      assert UniqueKeys(c[..n]);
      PutAllToMap(c[..n]);
      ToMapSnoc(c, n);
      assert c[..n + 1] == c;
    }
  }

  /** Node `p` of `c` brings a key not yet in the map built from `m` and the nodes before it. */
  ghost predicate FreshAfter<V>(m: map<string, V>, c: Chain<V>, p: nat) {
    p < |c| && c[p].0 !in PutAll(m, c[..p])
  }

  lemma HomedPrefix<V>(bs: seq<Chain<V>>, hash: string -> nat, cap: nat, i: nat)
    requires HomedFrom(bs, hash, cap, 0) && i <= |bs|
    ensures HomedFrom(bs[..i], hash, cap, 0)
  {
    forall j | 0 <= j < i
      ensures Homed(bs[..i][j], hash, cap, j) && UniqueKeys(bs[..i][j])
    {
      assert bs[..i][j] == bs[j];
    }
  }

  /**
   * Putting the chains of a well-homed array bucket by bucket: chain `i`
   * continues the nodes of the chains before it, and each of its nodes brings
   * a key not put before, since the earlier chains hold keys homed below `i`.
   */
  lemma ChainStep<V>(bs: seq<Chain<V>>, hash: string -> nat, cap: nat, i: nat)
    requires HomedFrom(bs, hash, cap, 0) && i < |bs|
    ensures |Flat(bs[..i + 1])| == |Flat(bs[..i])| + |bs[i]|
    ensures PutAll(map[], Flat(bs[..i + 1])) == PutAll(PutAll(map[], Flat(bs[..i])), bs[i])
    ensures forall p :: 0 <= p < |bs[i]| ==> FreshAfter(PutAll(map[], Flat(bs[..i])), bs[i], p)
  {
    FlatPrefixStep(bs, i);
    PutAllConcat(map[], Flat(bs[..i]), bs[i]);
    var before := Flat(bs[..i]);
    var m := PutAll(map[], before);
    HomedPrefix(bs, hash, cap, i);
    FlatHomes(bs[..i], hash, cap, 0);
    assert |bs[..i]| == i;
    forall p | 0 <= p < |bs[i]|
      ensures FreshAfter(m, bs[i], p)
    {
      var c := bs[i];
      var k := c[p].0;
      assert Homed(c, hash, cap, i) && UniqueKeys(c);
      assert hash(k) % cap == i;
      PutAllKeys(m, c[..p], k);
      PutAllKeys(map[], before, k);
    }
  }
}

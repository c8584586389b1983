/**
 * The bucket array of the open-addressing hash table, as a value, and the
 * walks along the quadratic probe sequence that the table's methods perform
 * over it. The class in hash_map_oa.dfy is proved against these functions.
 */
module Probing {
  import opened Common

  /** A bucket: empty (`None` in the source) or an entry with its tombstone flag. */
  datatype Slot<V> = Empty | Entry(key: string, value: V, tomb: bool)

  /**
   * What one of the source's probe loops does. The loops carry no bound: each
   * either returns or runs forever (`Loops`).
   */
  datatype Outcome<T> = Returns(value: T) | Loops

  /** A slot holding an entry that is not tombstoned. */
  predicate Live<V>(s: Slot<V>) {
    s.Entry? && !s.tomb
  }

  /** The slot visited by the j-th probe from `home`: (home + j^2) mod cap. */
  function ProbeIndex(home: nat, j: nat, cap: nat): nat
    requires cap >= 1
  {
    (home + j * j) % cap
  }

  /** The home slot of a key whose hash is `h`. */
  function Home(h: nat, cap: nat): nat
    requires cap >= 1
  {
    h % cap
  }

  lemma {:induction false} MulAtLeast(k: int, c: int)
    requires k >= 1 && c >= 1
    ensures k * c >= c
    decreases k
  {
    if k > 1 {
      MulAtLeast(k - 1, c);
      assert k * c == (k - 1) * c + c;
    }
  }

  /** Euclidean remainder is determined by any quotient/remainder split. */
  lemma ModUnique(x: int, c: int, q: int, r: int)
    requires c >= 1 && 0 <= r < c && x == q * c + r
    ensures x % c == r
  {
    var q', r' := x / c, x % c;
    assert x == q' * c + r';
    assert (q - q') * c == r' - r;
    if q > q' {
      MulAtLeast(q - q', c);
    } else if q < q' {
      MulAtLeast(q' - q, c);
    }
  }

  lemma ModAddMultiple(x: nat, c: nat, m: nat)
    requires c >= 1
    ensures (x + c * m) % c == x % c
  {
    ModUnique(x + c * m, c, x / c + m, x % c);
  }

  /** The probe sequence repeats with period `cap`. */
  lemma ProbePeriodic(home: nat, j: nat, cap: nat)
    requires cap >= 1
    ensures ProbeIndex(home, j + cap, cap) == ProbeIndex(home, j, cap)
  {
    assert (j + cap) * (j + cap) == j * j + cap * (2 * j + cap);
    ModAddMultiple(home + j * j, cap, 2 * j + cap);
  }

  /** So every probe index is one of the first `cap` ones. */
  lemma {:induction false} ProbeWraps(home: nat, j: nat, cap: nat)
    requires cap >= 1
    ensures ProbeIndex(home, j, cap) == ProbeIndex(home, j % cap, cap)
    decreases j
  {
    if j >= cap {
      var k: nat := j - cap;
      ProbePeriodic(home, k, cap);
      assert ProbeIndex(home, j, cap) == ProbeIndex(home, k, cap) by { assert j == k + cap; }
      ProbeWraps(home, k, cap);
      ModAddMultiple(k, cap, 1);
      assert k % cap == j % cap by { assert j == k + cap * 1; }
    } else {
      ModUnique(j, cap, 0, j);
    }
  }

  /**
   * A slot at which a probe walk for `key` stops: an empty slot, or one that
   * carries `key` (when `liveOnly`, one that carries it and is not tombstoned).
   */
  predicate Halts<V>(s: Slot<V>, key: string, liveOnly: bool) {
    s.Empty? || (s.key == key && !(liveOnly && s.tomb))
  }

  /** No probe j with lo <= j < hi stops the walk. */
  predicate Blocked<V>(slots: seq<Slot<V>>, key: string, home: nat, lo: nat, hi: nat, liveOnly: bool)
    requires |slots| >= 1
  {
    forall u :: lo <= u < hi ==> !Halts(slots[ProbeIndex(home, u, |slots|)], key, liveOnly)
  }

  /** The first probe j' >= j, among the first |slots| ones, at which the walk stops. */
  function FirstStop<V>(slots: seq<Slot<V>>, key: string, home: nat, j: nat, liveOnly: bool): Option<nat>
    requires |slots| >= 1
    decreases |slots| - j
  {
    if j >= |slots| then None
    else if Halts(slots[ProbeIndex(home, j, |slots|)], key, liveOnly) then Some(j)
    else FirstStop(slots, key, home, j + 1, liveOnly)
  }

  /** FirstStop finds exactly the first stopping probe, and None means there is none. */
  lemma {:induction false} FirstStopIsFirst<V>(slots: seq<Slot<V>>, key: string, home: nat, j: nat, liveOnly: bool, t: nat)
    requires |slots| >= 1
    ensures FirstStop(slots, key, home, j, liveOnly) == Some(t) <==>
              j <= t < |slots| && Halts(slots[ProbeIndex(home, t, |slots|)], key, liveOnly) &&
              Blocked(slots, key, home, j, t, liveOnly)
    ensures FirstStop(slots, key, home, j, liveOnly) == None <==> Blocked(slots, key, home, j, |slots|, liveOnly)
    decreases |slots| - j
  {
    if j < |slots| && !Halts(slots[ProbeIndex(home, j, |slots|)], key, liveOnly) {
      FirstStopIsFirst(slots, key, home, j + 1, liveOnly, t);
    }
  }

  /**
   * The bounded walk finds no stop exactly when the source's unbounded loop
   * never stops: no probe index, however large, reaches a stopping slot.
   */
  lemma NoStopMeansLoops<V>(slots: seq<Slot<V>>, key: string, home: nat, liveOnly: bool)
    requires |slots| >= 1
    ensures FirstStop(slots, key, home, 0, liveOnly) == None <==>
              forall j: nat :: !Halts(slots[ProbeIndex(home, j, |slots|)], key, liveOnly)
  {
    FirstStopIsFirst(slots, key, home, 0, liveOnly, 0);
    if FirstStop(slots, key, home, 0, liveOnly) == None {
      forall j: nat
        ensures !Halts(slots[ProbeIndex(home, j, |slots|)], key, liveOnly)
      {
        ProbeWraps(home, j, |slots|);
      }
    }
  }

  lemma ProbeZero(home: nat, cap: nat)
    requires home < cap
    ensures ProbeIndex(home, 0, cap) == home
  {
    ModUnique(home, cap, 0, home);
  }

  /** Changing slots that the walk does not decide on leaves its stop where it was. */
  lemma {:induction false} FirstStopAgree<V>(s: seq<Slot<V>>, s': seq<Slot<V>>, key: string, home: nat, j: nat, liveOnly: bool, stop: nat)
    requires |s| == |s'| >= 1
    requires FirstStop(s, key, home, j, liveOnly) == Some(stop)
    requires forall u :: j <= u <= stop ==>
               Halts(s'[ProbeIndex(home, u, |s|)], key, liveOnly) == Halts(s[ProbeIndex(home, u, |s|)], key, liveOnly)
    ensures FirstStop(s', key, home, j, liveOnly) == Some(stop)
    decreases |s| - j
  {
    FirstStopIsFirst(s, key, home, j, liveOnly, stop);
    if !Halts(s[ProbeIndex(home, j, |s|)], key, liveOnly) {
      FirstStopAgree(s, s', key, home, j + 1, liveOnly, stop);
    }
  }

  /** Without tombstones, walking for live entries and walking for any entry agree. */
  lemma {:induction false} FirstStopNoTombs<V>(slots: seq<Slot<V>>, key: string, home: nat, j: nat)
    requires |slots| >= 1
    requires forall p :: 0 <= p < |slots| ==> !(slots[p].Entry? && slots[p].tomb)
    ensures FirstStop(slots, key, home, j, true) == FirstStop(slots, key, home, j, false)
    decreases |slots| - j
  {
    if j < |slots| {
      FirstStopNoTombs(slots, key, home, j + 1);
    }
  }

  // ---------------------------------------------------------------------
  // The probe walks of get, contains_key, remove and put, as functions.
  // `h` is the key's hash value.
  // ---------------------------------------------------------------------

  /** get: the value of the first live slot carrying `key` on the probe path. */
  function Lookup<V>(slots: seq<Slot<V>>, h: nat, key: string): Outcome<Option<V>>
    requires |slots| >= 1
  {
    var home := Home(h, |slots|);
    if slots[home].Empty? then Returns(None)
    else match FirstStop(slots, key, home, 0, true)
      case None => Loops
      case Some(j) =>
        var s := slots[ProbeIndex(home, j, |slots|)];
        if s.Empty? then Returns(None) else Returns(Some(s.value))
  }

  /** contains_key: stops at the first slot carrying `key`, live or not. */
  function Contains<V>(slots: seq<Slot<V>>, size: int, h: nat, key: string): Outcome<bool>
    requires size >= 1 ==> |slots| >= 1
  {
    if size < 1 then Returns(false)
    else
      var home := Home(h, |slots|);
      if slots[home].Empty? then Returns(false)
      else match FirstStop(slots, key, home, 0, false)
        case None => Loops
        case Some(j) => Returns(Live(slots[ProbeIndex(home, j, |slots|)]))
  }

  /** remove: the slot whose tombstone flag is set, if any. */
  function Removal<V>(slots: seq<Slot<V>>, h: nat, key: string): Outcome<Option<nat>>
    requires |slots| >= 1
  {
    var home := Home(h, |slots|);
    if slots[home].Empty? then Returns(None)
    else match FirstStop(slots, key, home, 0, false)
      case None => Loops
      case Some(j) =>
        var p := ProbeIndex(home, j, |slots|);
        if Live(slots[p]) then Returns(Some(p)) else Returns(None)
  }

  /**
   * put without its load check: the new slots and how much `size` grows.
   * As in the source, a tombstone on the home slot is overwritten by a
   * different key without counting it and without looking further down the
   * probe path; tombstones elsewhere are never reused; a tombstoned match off
   * the home slot gets the new value but stays tombstoned; a live home slot
   * is probed twice (which does not change where the walk stops).
   */
  function Insert<V>(slots: seq<Slot<V>>, h: nat, key: string, value: V): Outcome<(seq<Slot<V>>, nat)>
    requires |slots| >= 1
  {
    var home := Home(h, |slots|);
    var s := slots[home];
    if s.Empty? then Returns((slots[home := Entry(key, value, false)], 1))
    else if s.key == key then Returns((slots[home := Entry(key, value, false)], if s.tomb then 1 else 0))
    else if s.tomb then Returns((slots[home := Entry(key, value, false)], 0))
    else match FirstStop(slots, key, home, 0, false)
      case None => Loops
      case Some(j) =>
        var p := ProbeIndex(home, j, |slots|);
        if slots[p].Empty? then Returns((slots[p := Entry(key, value, false)], 1))
        else Returns((slots[p := slots[p].(value := value)], 0))
  }

  // ---------------------------------------------------------------------
  // Counting and the abstract map.
  // ---------------------------------------------------------------------

  /** The number of live slots. */
  function LiveCount<V>(slots: seq<Slot<V>>): nat
  {
    if |slots| == 0 then 0
    else LiveCount(slots[..|slots| - 1]) + (if Live(slots[|slots| - 1]) then 1 else 0)
  }

  /** The keys of the live slots, in ascending slot order. */
  function LiveKeys<V>(slots: seq<Slot<V>>): seq<string>
  {
    if |slots| == 0 then []
    else LiveKeys(slots[..|slots| - 1]) + (if Live(slots[|slots| - 1]) then [slots[|slots| - 1].key] else [])
  }

  /**
   * The key/value map the live slots stand for. Where one key has several
   * live slots the highest-numbered one wins, as when they are re-put in
   * slot order.
   */
  function Mapping<V>(slots: seq<Slot<V>>): map<string, V>
  {
    if |slots| == 0 then map[]
    else
      var m := Mapping(slots[..|slots| - 1]);
      var s := slots[|slots| - 1];
      if Live(s) then m[s.key := s.value] else m
  }

  /** No key has two live slots. */
  predicate UniqueLive<V>(slots: seq<Slot<V>>) {
    forall p, q :: 0 <= p < q < |slots| && Live(slots[p]) && Live(slots[q]) ==> slots[p].key != slots[q].key
  }

  predicate NoTombs<V>(slots: seq<Slot<V>>) {
    forall p :: 0 <= p < |slots| ==> !(slots[p].Entry? && slots[p].tomb)
  }

  /** The slot at which the walk for `key` stops, if it stops. */
  function StopSlot<V>(slots: seq<Slot<V>>, key: string, h: nat): Option<nat>
    requires |slots| >= 1
  {
    var home := Home(h, |slots|);
    match FirstStop(slots, key, home, 0, false)
    case None => None
    case Some(j) => Some(ProbeIndex(home, j, |slots|))
  }

  /**
   * A table as the source builds it from nothing by puts alone: no tombstone,
   * and the walk for each stored key stops exactly at that key's slot.
   */
  ghost predicate Clean<V>(slots: seq<Slot<V>>, hash: string -> nat) {
    forall p :: 0 <= p < |slots| && slots[p].Entry? ==>
      !slots[p].tomb && StopSlot(slots, slots[p].key, hash(slots[p].key)) == Some(p)
  }

  lemma {:induction false} LiveCountBound<V>(slots: seq<Slot<V>>)
    ensures LiveCount(slots) <= |slots|
    decreases |slots|
  {
    if |slots| > 0 {
      LiveCountBound(slots[..|slots| - 1]);
    }
  }

  lemma LiveCountStep<V>(slots: seq<Slot<V>>, i: nat)
    requires i < |slots|
    ensures LiveCount(slots[..i + 1]) == LiveCount(slots[..i]) + (if Live(slots[i]) then 1 else 0)
    ensures LiveKeys(slots[..i + 1]) == LiveKeys(slots[..i]) + (if Live(slots[i]) then [slots[i].key] else [])
    ensures Mapping(slots[..i + 1]) == (if Live(slots[i]) then Mapping(slots[..i])[slots[i].key := slots[i].value] else Mapping(slots[..i]))
  {
    assert slots[..i + 1][..i] == slots[..i];
  }

  lemma {:induction false} LiveCountPrefix<V>(slots: seq<Slot<V>>, i: nat)
    requires i <= |slots|
    ensures LiveCount(slots[..i]) <= LiveCount(slots)
    decreases |slots| - i
  {
    if i < |slots| {
      LiveCountStep(slots, i);
      LiveCountPrefix(slots, i + 1);
    } else {
      assert slots[..i] == slots;
    }
  }

  lemma {:induction false} LiveCountUpdate<V>(slots: seq<Slot<V>>, q: nat, x: Slot<V>)
    requires q < |slots|
    ensures LiveCount(slots[q := x]) == LiveCount(slots) - (if Live(slots[q]) then 1 else 0) + (if Live(x) then 1 else 0)
    decreases |slots|
  {
    var n := |slots| - 1;
    if q < n {
      assert slots[q := x][..n] == slots[..n][q := x];
      LiveCountUpdate(slots[..n], q, x);
    } else {
      assert slots[q := x][..n] == slots[..n];
    }
  }

  /** A live slot contributes at least one to the count. */
  lemma {:induction false} LiveCountPositive<V>(slots: seq<Slot<V>>, p: nat)
    requires p < |slots| && Live(slots[p])
    ensures LiveCount(slots) >= 1
    decreases |slots|
  {
    var n := |slots| - 1;
    if p < n {
      LiveCountPositive(slots[..n], p);
    }
  }

  lemma {:induction false} LiveKeysCount<V>(slots: seq<Slot<V>>)
    ensures |LiveKeys(slots)| == LiveCount(slots)
    ensures forall k :: k in LiveKeys(slots) <==> k in Mapping(slots)
    decreases |slots|
  {
    if |slots| > 0 {
      LiveKeysCount(slots[..|slots| - 1]);
    }
  }

  /** A key of the map of the first `i` slots is a key of the whole map. */
  lemma MappingPrefixKeys<V>(slots: seq<Slot<V>>, i: nat, key: string)
    requires i <= |slots| && key in Mapping(slots[..i])
    ensures key in Mapping(slots)
  {
    MappingKeys(slots[..i], key);
    var p :| 0 <= p < i && Live(slots[..i][p]) && slots[..i][p].key == key;
    assert slots[p] == slots[..i][p];
    MappingKeys(slots, key);
  }

  /** The map's keys are exactly the keys of live slots. */
  lemma {:induction false} MappingKeys<V>(slots: seq<Slot<V>>, key: string)
    ensures key in Mapping(slots) <==> exists p :: 0 <= p < |slots| && Live(slots[p]) && slots[p].key == key
    decreases |slots|
  {
    if |slots| > 0 {
      var n := |slots| - 1;
      MappingKeys(slots[..n], key);
      if key in Mapping(slots[..n]) {
        var p :| 0 <= p < n && Live(slots[..n][p]) && slots[..n][p].key == key;
        assert slots[p] == slots[..n][p];
      }
      if exists p :: 0 <= p < |slots| && Live(slots[p]) && slots[p].key == key {
        var p :| 0 <= p < |slots| && Live(slots[p]) && slots[p].key == key;
        if p < n {
          assert slots[..n][p] == slots[p];
        }
      }
    }
  }

  /** When only slot p carries `key` live, the map gives that slot's value. */
  lemma {:induction false} MappingValue<V>(slots: seq<Slot<V>>, p: nat)
    requires p < |slots| && Live(slots[p])
    requires forall q :: 0 <= q < |slots| && q != p && Live(slots[q]) ==> slots[q].key != slots[p].key
    ensures slots[p].key in Mapping(slots) && Mapping(slots)[slots[p].key] == slots[p].value
    decreases |slots|
  {
    var n := |slots| - 1;
    if p < n {
      forall q | 0 <= q < n && q != p && Live(slots[..n][q])
        ensures slots[..n][q].key != slots[..n][p].key
      {
        assert slots[..n][q] == slots[q];
      }
      MappingValue(slots[..n], p);
    }
  }

  /** Storing `key` live at q, where no other slot holds it live, updates the map at `key`. */
  lemma {:induction false} MappingSet<V>(slots: seq<Slot<V>>, q: nat, key: string, value: V)
    requires q < |slots|
    requires forall p :: 0 <= p < |slots| && p != q && Live(slots[p]) ==> slots[p].key != key
    requires Live(slots[q]) ==> slots[q].key == key
    ensures Mapping(slots[q := Entry(key, value, false)]) == Mapping(slots)[key := value]
    decreases |slots|
  {
    var n := |slots| - 1;
    var s' := slots[q := Entry(key, value, false)];
    if q < n {
      assert s'[..n] == slots[..n][q := Entry(key, value, false)];
      forall p | 0 <= p < n && p != q && Live(slots[..n][p])
        ensures slots[..n][p].key != key
      {
        assert slots[..n][p] == slots[p];
      }
      MappingSet(slots[..n], q, key, value);
    } else {
      assert s'[..n] == slots[..n];
    }
  }

  /** Tombstoning the only live slot of `key` removes `key` from the map. */
  lemma {:induction false} MappingTomb<V>(slots: seq<Slot<V>>, q: nat)
    requires q < |slots| && Live(slots[q])
    requires forall p :: 0 <= p < |slots| && p != q && Live(slots[p]) ==> slots[p].key != slots[q].key
    ensures Mapping(slots[q := slots[q].(tomb := true)]) == Mapping(slots) - {slots[q].key}
    decreases |slots|
  {
    var n := |slots| - 1;
    var key := slots[q].key;
    var s' := slots[q := slots[q].(tomb := true)];
    if q < n {
      assert s'[..n] == slots[..n][q := slots[..n][q].(tomb := true)];
      forall p | 0 <= p < n && p != q && Live(slots[..n][p])
        ensures slots[..n][p].key != slots[..n][q].key
      {
        assert slots[..n][p] == slots[p];
      }
      MappingTomb(slots[..n], q);
    } else {
      assert s'[..n] == slots[..n];
      forall p | 0 <= p < n && Live(slots[..n][p])
        ensures slots[..n][p].key != key
      {
        assert slots[..n][p] == slots[p];
      }
      MappingKeys(slots[..n], key);
    }
  }

  // ---------------------------------------------------------------------
  // What the walks mean.
  // ---------------------------------------------------------------------

  /**
   * put's size bookkeeping never overcounts: it adds at most what it adds to
   * the live slots, which is at most one.
   */
  lemma InsertAccounting<V>(slots: seq<Slot<V>>, h: nat, key: string, value: V)
    requires |slots| >= 1 && Insert(slots, h, key, value).Returns?
    ensures var (s', added) := Insert(slots, h, key, value).value;
              |s'| == |slots| && LiveCount(slots) + added <= LiveCount(s') <= LiveCount(slots) + 1
  {
    var home := Home(h, |slots|);
    var s := slots[home];
    if s.Empty? || s.key == key || s.tomb {
      LiveCountUpdate(slots, home, Entry(key, value, false));
    } else {
      var j := FirstStop(slots, key, home, 0, false).value;
      var p := ProbeIndex(home, j, |slots|);
      if slots[p].Empty? {
        LiveCountUpdate(slots, p, Entry(key, value, false));
      } else {
        LiveCountUpdate(slots, p, slots[p].(value := value));
      }
    }
  }

  /**
   * put's probe loop on `slots` never ends: the home slot is live with
   * another key, and no probe, however far, meets an empty slot or the key.
   */
  ghost predicate PutDiverges<V>(slots: seq<Slot<V>>, h: nat, key: string) {
    |slots| >= 1 &&
    var home := Home(h, |slots|);
    Live(slots[home]) && slots[home].key != key &&
    forall j: nat :: !Halts(slots[ProbeIndex(home, j, |slots|)], key, false)
  }

  /** Insert reports Loops exactly when put's loop never ends. */
  lemma InsertLoops<V>(slots: seq<Slot<V>>, h: nat, key: string, value: V)
    requires |slots| >= 1
    ensures Insert(slots, h, key, value) == Loops <==> PutDiverges(slots, h, key)
  {
    NoStopMeansLoops(slots, key, Home(h, |slots|), false);
  }

  /** get diverges exactly when the home slot is occupied and no probe ever meets an empty slot or a live entry for the key. */
  lemma LookupLoops<V>(slots: seq<Slot<V>>, h: nat, key: string)
    requires |slots| >= 1
    ensures var home := Home(h, |slots|);
            Lookup(slots, h, key) == Loops <==>
              slots[home].Entry? && forall j: nat :: !Halts(slots[ProbeIndex(home, j, |slots|)], key, true)
  {
    NoStopMeansLoops(slots, key, Home(h, |slots|), true);
  }

  /** When contains_key answers true, get returns the value of the same slot. */
  lemma ContainsThenLookup<V>(slots: seq<Slot<V>>, size: int, h: nat, key: string)
    requires |slots| >= 1 && Contains(slots, size, h, key) == Returns(true)
    ensures var home := Home(h, |slots|);
            var j := FirstStop(slots, key, home, 0, false).value;
            Lookup(slots, h, key) == Returns(Some(slots[ProbeIndex(home, j, |slots|)].value))
  {
    var home := Home(h, |slots|);
    var j := FirstStop(slots, key, home, 0, false).value;
    FirstStopIsFirst(slots, key, home, 0, false, j);
    FirstStopIsFirst(slots, key, home, 0, true, j);
  }

  /** A clean table has no tombstone and no key with two live slots. */
  lemma CleanUnique<V>(slots: seq<Slot<V>>, hash: string -> nat)
    requires Clean(slots, hash)
    ensures NoTombs(slots) && UniqueLive(slots)
  {
  }

  /** In a clean table, a live slot for `key` is where the walk for `key` stops. */
  lemma CleanStop<V>(slots: seq<Slot<V>>, hash: string -> nat, key: string, p: nat)
    requires Clean(slots, hash) && p < |slots| && slots[p].Entry? && slots[p].key == key
    ensures StopSlot(slots, key, hash(key)) == Some(p)
  {
  }

  /**
   * In a clean table, put stores the key at the slot where the walk for it
   * stops, and counts it exactly when that slot was empty.
   */
  lemma InsertAtStop<V>(slots: seq<Slot<V>>, hash: string -> nat, key: string, value: V)
    requires |slots| >= 1 && Clean(slots, hash) && Insert(slots, hash(key), key, value).Returns?
    ensures StopSlot(slots, key, hash(key)).Some?
    ensures var q := StopSlot(slots, key, hash(key)).value;
            q < |slots| && Halts(slots[q], key, false) &&
            Insert(slots, hash(key), key, value).value ==
              (slots[q := Entry(key, value, false)], if slots[q].Empty? then 1 else 0)
  {
    var home := Home(hash(key), |slots|);
    ProbeZero(home, |slots|);
    var j := FirstStop(slots, key, home, 0, false).value;
    FirstStopIsFirst(slots, key, home, 0, false, j);
    if !slots[home].Empty? && slots[home].key == key {
      assert j == 0;
    }
  }

  /**
   * Writing a slot that does not stop the walk for `k`, anywhere but at the
   * walk's stop, leaves that stop where it was.
   */
  lemma WriteOffStop<V>(slots: seq<Slot<V>>, k: string, home: nat, stop: nat, q: nat, x: Slot<V>)
    requires |slots| >= 1 && q < |slots| && FirstStop(slots, k, home, 0, false) == Some(stop)
    requires ProbeIndex(home, stop, |slots|) != q && !Halts(x, k, false)
    ensures FirstStop(slots[q := x], k, home, 0, false) == Some(stop)
  {
    var cap := |slots|;
    FirstStopIsFirst(slots, k, home, 0, false, stop);
    forall u | 0 <= u <= stop
      ensures Halts(slots[q := x][ProbeIndex(home, u, cap)], k, false) == Halts(slots[ProbeIndex(home, u, cap)], k, false)
    {
      if ProbeIndex(home, u, cap) == q {
        assert u < stop;
      }
    }
    FirstStopAgree(slots, slots[q := x], k, home, 0, false, stop);
  }

  /** Storing `key` at slot `q` where its walk stops leaves the walk of every other stored key unchanged. */
  lemma OtherKeyStays<V>(slots: seq<Slot<V>>, hash: string -> nat, key: string, value: V, q: nat, p: nat)
    requires |slots| >= 1 && Clean(slots, hash) && StopSlot(slots, key, hash(key)) == Some(q)
    requires p < |slots| && p != q && slots[p].Entry?
    ensures StopSlot(slots[q := Entry(key, value, false)], slots[p].key, hash(slots[p].key)) == Some(p)
  {
    var k := slots[p].key;
    assert StopSlot(slots, k, hash(k)) == Some(p);
    var home' := Home(hash(k), |slots|);
    var j' := FirstStop(slots, k, home', 0, false).value;
    WriteOffStop(slots, k, home', j', q, Entry(key, value, false));
  }

  /** Storing `key` where its walk stops keeps the table clean. */
  lemma CleanSet<V>(slots: seq<Slot<V>>, hash: string -> nat, key: string, value: V)
    requires |slots| >= 1 && Clean(slots, hash) && StopSlot(slots, key, hash(key)).Some?
    requires Halts(slots[StopSlot(slots, key, hash(key)).value], key, false)
    ensures Clean(slots[StopSlot(slots, key, hash(key)).value := Entry(key, value, false)], hash)
  {
    var cap := |slots|;
    var home := Home(hash(key), cap);
    var j := FirstStop(slots, key, home, 0, false).value;
    FirstStopIsFirst(slots, key, home, 0, false, j);
    var q := ProbeIndex(home, j, cap);
    var s' := slots[q := Entry(key, value, false)];
    forall u | 0 <= u <= j
      ensures Halts(s'[ProbeIndex(home, u, cap)], key, false) == Halts(slots[ProbeIndex(home, u, cap)], key, false)
    {
    }
    FirstStopAgree(slots, s', key, home, 0, false, j);
    forall p | 0 <= p < cap && s'[p].Entry?
      ensures !s'[p].tomb && StopSlot(s', s'[p].key, hash(s'[p].key)) == Some(p)
    {
      if p != q {
        OtherKeyStays(slots, hash, key, value, q, p);
      }
    }
  }

  /**
   * put into a clean table (as resize builds one) keeps it clean and updates
   * the map at `key`; it adds one to `size` exactly when `key` was new.
   */
  lemma InsertClean<V>(slots: seq<Slot<V>>, hash: string -> nat, key: string, value: V)
    requires |slots| >= 1 && Clean(slots, hash) && Insert(slots, hash(key), key, value).Returns?
    ensures var (s', added) := Insert(slots, hash(key), key, value).value;
              Clean(s', hash) && Mapping(s') == Mapping(slots)[key := value] &&
              LiveCount(s') == LiveCount(slots) + added && (added == 1 <==> key !in Mapping(slots))
  {
    InsertAtStop(slots, hash, key, value);
    var q := StopSlot(slots, key, hash(key)).value;
    CleanSet(slots, hash, key, value);
    forall p | 0 <= p < |slots| && p != q && Live(slots[p])
      ensures slots[p].key != key
    {
      assert StopSlot(slots, slots[p].key, hash(slots[p].key)) == Some(p);
    }
    MappingSet(slots, q, key, value);
    LiveCountUpdate(slots, q, Entry(key, value, false));
    MappingKeys(slots, key);
  }

  /**
   * In a clean table get and contains_key agree with the map for every key
   * that is stored; for a key that is not, they never report it present
   * (though they may probe forever).
   */
  lemma CleanLookup<V>(slots: seq<Slot<V>>, hash: string -> nat, size: int, key: string)
    requires |slots| >= 1 && Clean(slots, hash) && size == LiveCount(slots)
    ensures key in Mapping(slots) ==>
              Lookup(slots, hash(key), key) == Returns(Some(Mapping(slots)[key])) &&
              Contains(slots, size, hash(key), key) == Returns(true)
    ensures key !in Mapping(slots) ==>
              Lookup(slots, hash(key), key) in {Returns(None), Loops} &&
              Contains(slots, size, hash(key), key) in {Returns(false), Loops}
  {
    var cap := |slots|;
    var home := Home(hash(key), cap);
    ProbeZero(home, cap);
    CleanUnique(slots, hash);
    FirstStopNoTombs(slots, key, home, 0);
    MappingKeys(slots, key);
    if key in Mapping(slots) {
      var p :| 0 <= p < cap && Live(slots[p]) && slots[p].key == key;
      CleanStop(slots, hash, key, p);
      var j := FirstStop(slots, key, home, 0, false).value;
      FirstStopIsFirst(slots, key, home, 0, false, j);
      MappingValue(slots, p);
      LiveCountPositive(slots, p);
    } else if FirstStop(slots, key, home, 0, false).Some? {
      var j := FirstStop(slots, key, home, 0, false).value;
      FirstStopIsFirst(slots, key, home, 0, false, j);
    }
  }

  /**
   * remove tombstones a live slot for the key, so one live slot fewer; when
   * no key has two live slots, the key leaves the map.
   */
  lemma RemovalTombstones<V>(slots: seq<Slot<V>>, h: nat, key: string, p: nat)
    requires |slots| >= 1 && Removal(slots, h, key) == Returns(Some(p))
    ensures p < |slots| && Live(slots[p]) && slots[p].key == key
    ensures LiveCount(slots[p := slots[p].(tomb := true)]) == LiveCount(slots) - 1
    ensures UniqueLive(slots) ==> Mapping(slots[p := slots[p].(tomb := true)]) == Mapping(slots) - {key}
  {
    var home := Home(h, |slots|);
    var j := FirstStop(slots, key, home, 0, false).value;
    FirstStopIsFirst(slots, key, home, 0, false, j);
    LiveCountUpdate(slots, p, slots[p].(tomb := true));
    if UniqueLive(slots) {
      MappingTomb(slots, p);
    }
  }

  /** In a clean table remove finds exactly the stored keys. */
  lemma CleanRemoval<V>(slots: seq<Slot<V>>, hash: string -> nat, key: string)
    requires |slots| >= 1 && Clean(slots, hash)
    ensures key in Mapping(slots) <==> Removal(slots, hash(key), key).Returns? && Removal(slots, hash(key), key).value.Some?
  {
    var cap := |slots|;
    var home := Home(hash(key), cap);
    ProbeZero(home, cap);
    MappingKeys(slots, key);
    if key in Mapping(slots) {
      var p :| 0 <= p < cap && Live(slots[p]) && slots[p].key == key;
      CleanStop(slots, hash, key, p);
      var j := FirstStop(slots, key, home, 0, false).value;
      FirstStopIsFirst(slots, key, home, 0, false, j);
    } else if Removal(slots, hash(key), key).Returns? && Removal(slots, hash(key), key).value.Some? {
      var p := Removal(slots, hash(key), key).value.value;
      RemovalTombstones(slots, hash(key), key, p);
    }
  }

  /** After put into a clean table, get returns the new value and contains_key answers true. */
  lemma InsertThenLookup<V>(slots: seq<Slot<V>>, hash: string -> nat, key: string, value: V)
    requires |slots| >= 1 && Clean(slots, hash) && Insert(slots, hash(key), key, value).Returns?
    ensures var s' := Insert(slots, hash(key), key, value).value.0;
            Lookup(s', hash(key), key) == Returns(Some(value)) &&
            Contains(s', LiveCount(s'), hash(key), key) == Returns(true)
  {
    InsertClean(slots, hash, key, value);
    var s' := Insert(slots, hash(key), key, value).value.0;
    CleanLookup(s', hash, LiveCount(s'), key);
  }

  /**
   * After remove has tombstoned `key` in a clean table, contains_key answers
   * false and get finds nothing (or probes forever, as it walks past
   * tombstones).
   */
  lemma RemoveThenAbsent<V>(slots: seq<Slot<V>>, hash: string -> nat, key: string, p: nat)
    requires |slots| >= 1 && Clean(slots, hash) && Removal(slots, hash(key), key) == Returns(Some(p))
    ensures p < |slots|
    ensures var s' := slots[p := slots[p].(tomb := true)];
            (forall size :: Contains(s', size, hash(key), key) == Returns(false)) &&
            Lookup(s', hash(key), key) in {Returns(None), Loops}
  {
    var cap := |slots|;
    var home := Home(hash(key), cap);
    RemovalTombstones(slots, hash(key), key, p);
    CleanUnique(slots, hash);
    var j := FirstStop(slots, key, home, 0, false).value;
    FirstStopIsFirst(slots, key, home, 0, false, j);
    var s' := slots[p := slots[p].(tomb := true)];
    FirstStopAgree(slots, s', key, home, 0, false, j);
    forall q | 0 <= q < cap && Live(s'[q])
      ensures s'[q].key != key
    {
      if q < p {
        assert !(Live(slots[q]) && Live(slots[p]) && slots[q].key == slots[p].key);
      } else {
        assert !(Live(slots[p]) && Live(slots[q]) && slots[p].key == slots[q].key);
      }
    }
    match FirstStop(s', key, home, 0, true)
    case None =>
    case Some(j') =>
      FirstStopIsFirst(s', key, home, 0, true, j');
  }
}

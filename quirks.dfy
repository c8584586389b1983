/**
 * Concrete runs of the open-addressing table's walks that show how its
 * put, get, contains_key and remove behave on the states they produce.
 * Every key here hashes to 0, so every walk starts at slot 0, and no put
 * reaches the load factor of one half that would make it resize first.
 */
module ProbeQuirks {
  import opened Common
  import opened Probing

  /** Eight empty buckets. */
  function Fresh(): seq<Slot<int>>
    ensures |Fresh()| == 8 && LiveCount(Fresh()) == 0
  {
    var e: seq<Slot<int>> := seq(8, _ => Empty);
    LiveCountIsZero(e);
    e
  }

  lemma {:induction false} LiveCountIsZero<V>(slots: seq<Slot<V>>)
    requires forall p :: 0 <= p < |slots| ==> slots[p].Empty?
    ensures LiveCount(slots) == 0
    decreases |slots|
  {
    if |slots| > 0 {
      LiveCountIsZero(slots[..|slots| - 1]);
    }
  }

  /**
   * put "b", put "a", remove "b", put "a", remove "a": the home-slot
   * tombstone of "b" is overwritten by "a" although "a" is already stored
   * further down the probe path, so "a" ends with two live slots; removing it
   * tombstones only the first. Then get still finds the older value while
   * contains_key says the key is absent, and size (0) is below the number of
   * live slots (1).
   */
  lemma GetAndContainsDisagree()
    ensures var s0 := Fresh();
            Insert(s0, 0, "b", 1).Returns? &&
            (var s1 := Insert(s0, 0, "b", 1).value.0;
             Insert(s1, 0, "a", 2).Returns? &&
             (var s2 := Insert(s1, 0, "a", 2).value.0;
              Removal(s2, 0, "b") == Returns(Some(0)) &&
              (var s3 := s2[0 := s2[0].(tomb := true)];
               Insert(s3, 0, "a", 3).Returns? &&
               (var s4 := Insert(s3, 0, "a", 3).value.0;
                Removal(s4, 0, "a") == Returns(Some(0)) &&
                (var s5 := s4[0 := s4[0].(tomb := true)];
                 var added := Insert(s0, 0, "b", 1).value.1 + Insert(s1, 0, "a", 2).value.1 - 1 +
                              Insert(s3, 0, "a", 3).value.1 - 1;
                 2 * Insert(s0, 0, "b", 1).value.1 < |s1| &&
                 2 * (Insert(s0, 0, "b", 1).value.1 + Insert(s1, 0, "a", 2).value.1 - 1) < |s3| &&
                 !UniqueLive(s4) &&
                 Lookup(s5, 0, "a") == Returns(Some(2)) &&
                 (forall size :: Contains(s5, size, 0, "a") == Returns(false)) &&
                 added == 0 && LiveCount(s5) == 1)))))
  {
    var s0 := Fresh();
    var s1 := s0[0 := Entry("b", 1, false)];
    assert Insert(s0, 0, "b", 1) == Returns((s1, 1));
    assert FirstStop(s1, "a", 0, 0, false) == Some(1) by { assert ProbeIndex(0, 1, 8) == 1; }
    var s2 := s1[1 := Entry("a", 2, false)];
    assert Insert(s1, 0, "a", 2) == Returns((s2, 1));
    assert Removal(s2, 0, "b") == Returns(Some(0));
    var s3 := s2[0 := Entry("b", 1, true)];
    var s4 := s3[0 := Entry("a", 3, false)];
    assert Insert(s3, 0, "a", 3) == Returns((s4, 0));
    assert Live(s4[0]) && Live(s4[1]) && s4[0].key == s4[1].key;
    assert Removal(s4, 0, "a") == Returns(Some(0));
    var s5 := s4[0 := Entry("a", 3, true)];
    assert FirstStop(s5, "a", 0, 0, true) == Some(1) by { assert ProbeIndex(0, 1, 8) == 1; }
    assert FirstStop(s5, "a", 0, 0, false) == Some(0);
    LiveCountUpdate(s1, 1, Entry("a", 2, false));
    LiveCountUpdate(s0, 0, Entry("b", 1, false));
    LiveCountUpdate(s4, 0, Entry("a", 3, true));
    LiveCountUpdate(s3, 0, Entry("a", 3, false));
    LiveCountUpdate(s2, 0, Entry("b", 1, true));
  }

  /**
   * put "a", remove "a", put "b", remove "b": "b" takes over the tombstone on
   * the home slot without being counted, so the second remove drives size
   * from 0 to -1.
   */
  lemma SizeGoesNegative()
    ensures var s0 := Fresh();
            Insert(s0, 0, "a", 1).Returns? &&
            (var (s1, a1) := Insert(s0, 0, "a", 1).value;
             Removal(s1, 0, "a") == Returns(Some(0)) &&
             (var s2 := s1[0 := s1[0].(tomb := true)];
              Insert(s2, 0, "b", 2).Returns? &&
              (var (s3, a3) := Insert(s2, 0, "b", 2).value;
               Removal(s3, 0, "b") == Returns(Some(0)) &&
               2 * (a1 - 1) < |s2| &&
               a1 - 1 + a3 - 1 == -1)))
  {
    var s0 := Fresh();
    var s1 := s0[0 := Entry("a", 1, false)];
    assert Insert(s0, 0, "a", 1) == Returns((s1, 1));
    assert Removal(s1, 0, "a") == Returns(Some(0));
    var s2 := s1[0 := Entry("a", 1, true)];
    var s3 := s2[0 := Entry("b", 2, false)];
    assert Insert(s2, 0, "b", 2) == Returns((s3, 0));
    assert Removal(s3, 0, "b") == Returns(Some(0));
  }

  /**
   * Three puts of keys hashing to 0 into eight buckets fill slots 0, 1 and 4
   * and leave a clean table with load 3/8 below one half. Every square is
   * 0, 1 or 4 modulo 8, so a fourth key hashing to 0 never meets an empty
   * slot: that put probes forever.
   */
  lemma PutLoopsBelowHalfLoad()
    ensures var s0 := Fresh();
            Insert(s0, 0, "x", 1).Returns? &&
            (var s1 := Insert(s0, 0, "x", 1).value.0;
             Insert(s1, 0, "y", 2).Returns? &&
             (var s2 := Insert(s1, 0, "y", 2).value.0;
              Insert(s2, 0, "z", 3).Returns? &&
              (var s3 := Insert(s2, 0, "z", 3).value.0;
               var size := Insert(s0, 0, "x", 1).value.1 + Insert(s1, 0, "y", 2).value.1 +
                           Insert(s2, 0, "z", 3).value.1;
               2 * Insert(s0, 0, "x", 1).value.1 < |s1| &&
               2 * (Insert(s0, 0, "x", 1).value.1 + Insert(s1, 0, "y", 2).value.1) < |s2| &&
               2 * size < |s3| &&
               Clean(s3, _ => 0) && 2 * LiveCount(s3) < |s3| && Insert(s3, 0, "k", 4) == Loops)))
  {
    var s0 := Fresh();
    var s1 := s0[0 := Entry("x", 1, false)];
    assert Insert(s0, 0, "x", 1) == Returns((s1, 1));
    assert FirstStop(s1, "y", 0, 0, false) == Some(1) by { assert ProbeIndex(0, 1, 8) == 1; }
    var s2 := s1[1 := Entry("y", 2, false)];
    assert Insert(s1, 0, "y", 2) == Returns((s2, 1));
    assert FirstStop(s2, "z", 0, 2, false) == Some(2) by { assert ProbeIndex(0, 2, 8) == 4; }
    assert FirstStop(s2, "z", 0, 0, false) == Some(2) by { assert ProbeIndex(0, 1, 8) == 1; }
    var s3 := s2[4 := Entry("z", 3, false)];
    assert Insert(s2, 0, "z", 3) == Returns((s3, 1));
    assert FirstStop(s3, "k", 0, 7, false) == None by { assert ProbeIndex(0, 7, 8) == 1; }
    assert FirstStop(s3, "k", 0, 6, false) == None by { assert ProbeIndex(0, 6, 8) == 4; }
    assert FirstStop(s3, "k", 0, 5, false) == None by { assert ProbeIndex(0, 5, 8) == 1; }
    assert FirstStop(s3, "k", 0, 4, false) == None by { assert ProbeIndex(0, 4, 8) == 0; }
    assert FirstStop(s3, "k", 0, 3, false) == None by { assert ProbeIndex(0, 3, 8) == 1; }
    assert FirstStop(s3, "k", 0, 2, false) == None by { assert ProbeIndex(0, 2, 8) == 4; }
    assert FirstStop(s3, "k", 0, 0, false) == None by { assert ProbeIndex(0, 1, 8) == 1; }
    assert FirstStop(s3, "x", 0, 0, false) == Some(0);
    assert FirstStop(s3, "y", 0, 0, false) == Some(1);
    assert FirstStop(s3, "z", 0, 2, false) == Some(2) by { assert ProbeIndex(0, 2, 8) == 4; }
    assert FirstStop(s3, "z", 0, 0, false) == Some(2) by { assert ProbeIndex(0, 1, 8) == 1; }
    LiveCountUpdate(s0, 0, Entry("x", 1, false));
    LiveCountUpdate(s1, 1, Entry("y", 2, false));
    LiveCountUpdate(s2, 4, Entry("z", 3, false));
  }
}

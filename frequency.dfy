/**
 * What find_mode computes, stated without hash maps: how often each value
 * occurs, the largest such count, and the values that reach it, each once,
 * in order of first occurrence.
 */
module Frequency {

  /** How many times `x` occurs in `s`. */
  function Count(s: seq<string>, x: string): nat {
    multiset(s)[x]
  }

  /**
   * The count of every value of `s`, built as the first pass of find_mode
   * builds it: a value not yet counted gets 1, a counted one one more.
   */
  function Counts(s: seq<string>): map<string, nat> {
    if |s| == 0 then map[]
    else
      var m, x := Counts(s[..|s| - 1]), s[|s| - 1];
      m[x := if x in m then m[x] + 1 else 1]
  }

  /** The values of `s` in order of first occurrence, each once. */
  function Distinct(s: seq<string>): seq<string> {
    if |s| == 0 then []
    else
      var init := s[..|s| - 1];
      Distinct(init) + (if s[|s| - 1] in init then [] else [s[|s| - 1]])
  }

  /** The largest count in `s` of any value of `xs`, 0 when `xs` is empty. */
  function MaxOver(xs: seq<string>, s: seq<string>): nat {
    if |xs| == 0 then 0
    else
      var m := MaxOver(xs[..|xs| - 1], s);
      var c := Count(s, xs[|xs| - 1]);
      if c > m then c else m
  }

  /** The largest number of times any value occurs in `s`. */
  function MaxCount(s: seq<string>): nat {
    MaxOver(s, s)
  }

  /** The values of `xs`, in order, that occur exactly `f` times in `s`. */
  function WithCount(xs: seq<string>, s: seq<string>, f: nat): seq<string> {
    if |xs| == 0 then []
    else WithCount(xs[..|xs| - 1], s, f) + (if Count(s, xs[|xs| - 1]) == f then [xs[|xs| - 1]] else [])
  }

  /** The modes of `s`: each most frequent value once, in order of first occurrence. */
  function Modes(s: seq<string>): seq<string> {
    WithCount(Distinct(s), s, MaxCount(s))
  }

  /** The position of the first occurrence of `x` in `s`. */
  function FirstIndex(s: seq<string>, x: string): (i: nat)
    requires x in s
    ensures i < |s| && s[i] == x && x !in s[..i]
  {
    if s[0] == x then 0
    else
      assert x in s[1..] by {
        var k :| 0 <= k < |s| && s[k] == x;
        assert s[1..][k - 1] == x;
      }
      var i := 1 + FirstIndex(s[1..], x);
      assert s[..i] == [s[0]] + s[1..][..i - 1];
      i
  }

  // ---------------------------------------------------------------------
  // Steps, as the loops of find_mode take them.
  // ---------------------------------------------------------------------

  lemma Prefix(s: seq<string>, i: nat)
    requires i < |s|
    ensures s[..i + 1][..i] == s[..i] && s[..i + 1][i] == s[i] && s[..i + 1] == s[..i] + [s[i]]
  {
  }

  /** Counting one more value adds one to its count only. */
  lemma CountsStep(s: seq<string>, i: nat)
    requires i < |s|
    ensures var m := Counts(s[..i]);
            Counts(s[..i + 1]) == m[s[i] := if s[i] in m then m[s[i]] + 1 else 1]
  {
    Prefix(s, i);
  }

  lemma DistinctStep(s: seq<string>, i: nat)
    requires i < |s|
    ensures Distinct(s[..i + 1]) == Distinct(s[..i]) + (if s[i] in s[..i] then [] else [s[i]])
  {
    Prefix(s, i);
  }

  lemma MaxOverStep(xs: seq<string>, s: seq<string>, i: nat)
    requires i < |xs|
    ensures MaxOver(xs[..i + 1], s) ==
              if Count(s, xs[i]) > MaxOver(xs[..i], s) then Count(s, xs[i]) else MaxOver(xs[..i], s)
  {
    Prefix(xs, i);
  }

  lemma WithCountStep(xs: seq<string>, x: string, s: seq<string>, f: nat)
    ensures WithCount(xs + [x], s, f) == WithCount(xs, s, f) + (if Count(s, x) == f then [x] else [])
  {
    assert (xs + [x])[..|xs|] == xs;
  }

  // ---------------------------------------------------------------------
  // What the functions mean.
  // ---------------------------------------------------------------------

  /** Counts maps exactly the values of `s`, each to its number of occurrences. */
  lemma {:induction false} CountsMeaning(s: seq<string>, x: string)
    ensures x in Counts(s) <==> x in s
    ensures x in Counts(s) ==> Counts(s)[x] == Count(s, x)
    decreases |s|
  {
    if |s| > 0 {
      var n := |s| - 1;
      Prefix(s, n);
      assert s[..n + 1] == s;
      CountsMeaning(s[..n], x);
      assert multiset(s) == multiset(s[..n]) + multiset{s[n]};
    }
  }

  /** Distinct holds the values of `s`, and each of them once. */
  lemma {:induction false} DistinctMeaning(s: seq<string>)
    ensures forall x :: x in Distinct(s) <==> x in s
    ensures forall a, b :: 0 <= a < b < |Distinct(s)| ==> Distinct(s)[a] != Distinct(s)[b]
    decreases |s|
  {
    if |s| > 0 {
      var n := |s| - 1;
      Prefix(s, n);
      DistinctMeaning(s[..n]);
      assert s[..n + 1] == s;
    }
  }

  /** Distinct lists the values in the order of their first occurrences. */
  lemma {:induction false} DistinctOrder(s: seq<string>)
    ensures forall a, b :: 0 <= a < b < |Distinct(s)| ==>
              Distinct(s)[a] in s && Distinct(s)[b] in s &&
              FirstIndex(s, Distinct(s)[a]) < FirstIndex(s, Distinct(s)[b])
    decreases |s|
  {
    DistinctMeaning(s);
    if |s| > 0 {
      var n := |s| - 1;
      var init := s[..n];
      Prefix(s, n);
      assert s[..n + 1] == s;
      DistinctOrder(init);
      DistinctMeaning(init);
      var d := Distinct(s);
      forall a, b | 0 <= a < b < |d|
        ensures d[a] in s && d[b] in s && FirstIndex(s, d[a]) < FirstIndex(s, d[b])
      {
        assert d[a] in init by { assert d[a] == Distinct(init)[a]; }
        FirstIndexPrefix(s, n, d[a]);
        if b < |Distinct(init)| {
          assert d[b] == Distinct(init)[b];
          FirstIndexPrefix(s, n, d[b]);
        } else {
          assert d[b] == s[n] && s[n] !in init;
          assert FirstIndex(s, d[b]) == n by {
            var k := FirstIndex(s, d[b]);
          }
        }
      }
    }
  }

  /** A value already in the first n elements has its first occurrence there. */
  lemma FirstIndexPrefix(s: seq<string>, n: nat, x: string)
    requires n <= |s| && x in s[..n]
    ensures FirstIndex(s, x) == FirstIndex(s[..n], x)
  {
    var i := FirstIndex(s, x);
    var k := FirstIndex(s[..n], x);
    assert s[..n][k] == s[k];
  }

  /** MaxOver is an upper bound on the counts of the values of `xs`, and one of them reaches it. */
  lemma {:induction false} MaxOverMeaning(xs: seq<string>, s: seq<string>)
    ensures forall x :: x in xs ==> Count(s, x) <= MaxOver(xs, s)
    ensures |xs| == 0 ==> MaxOver(xs, s) == 0
    ensures |xs| > 0 ==> exists x :: x in xs && Count(s, x) == MaxOver(xs, s)
    decreases |xs|
  {
    if |xs| > 0 {
      var n := |xs| - 1;
      Prefix(xs, n);
      assert xs[..n + 1] == xs;
      MaxOverMeaning(xs[..n], s);
      if n > 0 && MaxOver(xs, s) == MaxOver(xs[..n], s) {
        var x :| x in xs[..n] && Count(s, x) == MaxOver(xs[..n], s);
        assert x in xs;
      }
      forall x | x in xs
        ensures Count(s, x) <= MaxOver(xs, s)
      {
        if x != xs[n] {
          assert x in xs[..n];
        }
      }
    }
  }

  /** The largest count: no value occurs more often, some value of a non-empty sequence that often. */
  lemma MaxCountMeaning(s: seq<string>)
    ensures forall x :: Count(s, x) <= MaxCount(s)
    ensures |s| == 0 <==> MaxCount(s) == 0
    ensures |s| > 0 ==> exists x :: x in s && Count(s, x) == MaxCount(s)
  {
    MaxOverMeaning(s, s);
    forall x
      ensures Count(s, x) <= MaxCount(s)
    {
      if x !in s {
        assert Count(s, x) == 0;
      }
    }
    if |s| > 0 {
      var x :| x in s && Count(s, x) == MaxCount(s);
    }
  }

  /** WithCount keeps exactly the values of `xs` counted `f` times, and repeats none when `xs` repeats none. */
  lemma {:induction false} WithCountMeaning(xs: seq<string>, s: seq<string>, f: nat)
    ensures forall x :: x in WithCount(xs, s, f) <==> x in xs && Count(s, x) == f
    ensures (forall a, b :: 0 <= a < b < |xs| ==> xs[a] != xs[b]) ==>
              forall a, b :: 0 <= a < b < |WithCount(xs, s, f)| ==> WithCount(xs, s, f)[a] != WithCount(xs, s, f)[b]
    decreases |xs|
  {
    if |xs| > 0 {
      var n := |xs| - 1;
      Prefix(xs, n);
      assert xs[..n + 1] == xs;
      WithCountMeaning(xs[..n], s, f);
      if (forall a, b :: 0 <= a < b < |xs| ==> xs[a] != xs[b]) {
        assert forall a, b :: 0 <= a < b < |xs[..n]| ==> xs[..n][a] != xs[..n][b];
        assert xs[n] !in xs[..n];
      }
    }
  }

  /**
   * WithCount is an order-preserving subsequence of `xs`: the values it keeps
   * at positions a < b stand in `xs` at positions i < j.
   */
  lemma {:induction false} WithCountPositions(xs: seq<string>, s: seq<string>, f: nat, a: nat, b: nat)
      returns (i: nat, j: nat)
    requires a < b < |WithCount(xs, s, f)|
    ensures i < j < |xs| && xs[i] == WithCount(xs, s, f)[a] && xs[j] == WithCount(xs, s, f)[b]
    decreases |xs|
  {
    var n := |xs| - 1;
    var init := xs[..n];
    assert xs[..n + 1] == xs;
    var w := WithCount(xs, s, f);
    var wi := WithCount(init, s, f);
    assert w[a] == wi[a];
    if b < |wi| {
      assert w[b] == wi[b];
      i, j := WithCountPositions(init, s, f, a, b);
    } else {
      WithCountMeaning(init, s, f);
      assert wi[a] in wi;
      i := FirstIndex(init, wi[a]);
      j := n;
    }
  }

  /** When every value of `xs` is counted less than `f`, none is kept. */
  lemma {:induction false} WithCountNone(xs: seq<string>, s: seq<string>, f: nat)
    requires forall x :: x in xs ==> Count(s, x) < f
    ensures WithCount(xs, s, f) == []
    decreases |xs|
  {
    if |xs| > 0 {
      var n := |xs| - 1;
      assert forall x :: x in xs[..n] ==> x in xs;
      WithCountNone(xs[..n], s, f);
    }
  }

  /**
   * The modes are exactly the values occurring MaxCount times, each once, in
   * order of first occurrence.
   */
  lemma ModesMeaning(s: seq<string>)
    ensures forall x :: x in Modes(s) <==> x in s && Count(s, x) == MaxCount(s)
    ensures forall a, b :: 0 <= a < b < |Modes(s)| ==> Modes(s)[a] != Modes(s)[b]
  {
    DistinctMeaning(s);
    WithCountMeaning(Distinct(s), s, MaxCount(s));
  }

  /** The modes are listed in the order of their first occurrences in `s`. */
  lemma ModesOrder(s: seq<string>)
    ensures forall x :: x in Modes(s) ==> x in s
    ensures forall a, b :: 0 <= a < b < |Modes(s)| ==> FirstIndex(s, Modes(s)[a]) < FirstIndex(s, Modes(s)[b])
  {
    var d := Distinct(s);
    ModesMeaning(s);
    DistinctOrder(s);
    forall a, b | 0 <= a < b < |Modes(s)|
      ensures FirstIndex(s, Modes(s)[a]) < FirstIndex(s, Modes(s)[b])
    {
      var i, j := WithCountPositions(d, s, MaxCount(s), a, b);
    }
  }

  // ---------------------------------------------------------------------
  // The second loop of find_mode, one element at a time: with the largest
  // count seen so far `MaxOver(s[..i], s)` and the modes so far
  // `WithCount(Distinct(s[..i]), s, MaxOver(s[..i], s))`, element `s[i]`
  // either starts a new list of modes, joins the list, or changes nothing.
  // ---------------------------------------------------------------------

  /** A value counted more often than any before it is new and is now the only mode. */
  lemma ModeStepAbove(s: seq<string>, i: nat)
    requires i < |s| && Count(s, s[i]) > MaxOver(s[..i], s)
    ensures s[i] !in s[..i]
    ensures MaxOver(s[..i + 1], s) == Count(s, s[i])
    ensures WithCount(Distinct(s[..i + 1]), s, Count(s, s[i])) == [s[i]]
  {
    MaxOverMeaning(s[..i], s);
    MaxOverStep(s, s, i);
    DistinctStep(s, i);
    DistinctMeaning(s[..i]);
    WithCountNone(Distinct(s[..i]), s, Count(s, s[i]));
    WithCountStep(Distinct(s[..i]), s[i], s, Count(s, s[i]));
  }

  /** A value counted as often as the largest count so far joins the modes when it is new. */
  lemma ModeStepLevel(s: seq<string>, i: nat)
    requires i < |s| && Count(s, s[i]) == MaxOver(s[..i], s)
    ensures MaxOver(s[..i + 1], s) == MaxOver(s[..i], s)
    ensures var f := MaxOver(s[..i], s);
            WithCount(Distinct(s[..i + 1]), s, f) ==
              WithCount(Distinct(s[..i]), s, f) + (if s[i] in s[..i] then [] else [s[i]])
  {
    MaxOverStep(s, s, i);
    DistinctStep(s, i);
    var d, f := Distinct(s[..i]), MaxOver(s[..i], s);
    if s[i] !in s[..i] {
      assert Distinct(s[..i + 1]) == d + [s[i]];
      WithCountStep(d, s[i], s, f);
    } else {
      assert Distinct(s[..i + 1]) == d;
    }
  }

  /** A value counted less often than the largest count so far changes nothing. */
  lemma ModeStepBelow(s: seq<string>, i: nat)
    requires i < |s| && Count(s, s[i]) < MaxOver(s[..i], s)
    ensures MaxOver(s[..i + 1], s) == MaxOver(s[..i], s)
    ensures var f := MaxOver(s[..i], s);
            WithCount(Distinct(s[..i + 1]), s, f) == WithCount(Distinct(s[..i]), s, f)
  {
    MaxOverStep(s, s, i);
    DistinctStep(s, i);
    var d, f := Distinct(s[..i]), MaxOver(s[..i], s);
    if s[i] !in s[..i] {
      assert Distinct(s[..i + 1]) == d + [s[i]];
      WithCountStep(d, s[i], s, f);
    } else {
      assert Distinct(s[..i + 1]) == d;
    }
  }

  /**
   * What the second loop of find_mode keeps after the first `i` values:
   * the largest count seen, the values reaching it in order of first
   * occurrence, and the set `listed` of values marked so far, which holds
   * only values seen and every seen value reaching the largest count.
   */
  ghost predicate ModeInvariant(s: seq<string>, i: nat, maxFrequency: nat, ret: seq<string>, listed: set<string>) {
    i <= |s| && maxFrequency == MaxOver(s[..i], s) && ret == WithCount(Distinct(s[..i]), s, maxFrequency) &&
    (forall x :: x in listed ==> x in s[..i]) &&
    (forall x :: x in s[..i] && Count(s, x) == maxFrequency ==> x in listed)
  }

  lemma SeenStep(s: seq<string>, i: nat)
    requires i < |s|
    ensures forall x :: x in s[..i + 1] <==> x in s[..i] || x == s[i]
  {
    Prefix(s, i);
  }

  /**
   * One turn of the second loop of find_mode keeps ModeInvariant: a higher
   * count restarts the list, an equal count of a value not yet marked
   * appends it, anything else leaves the list as it is.
   */
  lemma TallyAbove(s: seq<string>, i: nat, maxFrequency: nat, ret: seq<string>, listed: set<string>)
    requires i < |s| && ModeInvariant(s, i, maxFrequency, ret, listed) && Count(s, s[i]) > maxFrequency
    ensures ModeInvariant(s, i + 1, Count(s, s[i]), [s[i]], listed + {s[i]})
  {
    ModeStepAbove(s, i);
    SeenStep(s, i);
    MaxOverMeaning(s[..i], s);
  }

  lemma TallyLevel(s: seq<string>, i: nat, maxFrequency: nat, ret: seq<string>, listed: set<string>)
    requires i < |s| && ModeInvariant(s, i, maxFrequency, ret, listed) && Count(s, s[i]) == maxFrequency
    ensures s[i] !in listed ==> ModeInvariant(s, i + 1, maxFrequency, ret + [s[i]], listed + {s[i]})
    ensures s[i] in listed ==> ModeInvariant(s, i + 1, maxFrequency, ret, listed)
  {
    ModeStepLevel(s, i);
    SeenStep(s, i);
  }

  lemma TallyBelow(s: seq<string>, i: nat, maxFrequency: nat, ret: seq<string>, listed: set<string>)
    requires i < |s| && ModeInvariant(s, i, maxFrequency, ret, listed) && Count(s, s[i]) < maxFrequency
    ensures ModeInvariant(s, i + 1, maxFrequency, ret, listed)
  {
    ModeStepBelow(s, i);
    SeenStep(s, i);
  }

  /** The input of the example the source's own demonstration prints. */
  function Fruit(): seq<string> {
    ["apple", "apple", "grape", "melon", "melon", "peach"]
  }

  lemma FruitDistinctFirst()
    ensures Distinct(Fruit()[..3]) == ["apple", "grape"]
  {
    var s := Fruit();
    DistinctStep(s, 0);
    DistinctStep(s, 1);
    assert s[1] in s[..1] by { assert s[..1][0] == s[1]; }
    DistinctStep(s, 2);
    assert s[2] !in s[..2] by { assert s[..2] == ["apple", "apple"]; }
  }

  lemma FruitDistinct()
    ensures Distinct(Fruit()) == ["apple", "grape", "melon", "peach"]
  {
    var s := Fruit();
    FruitDistinctFirst();
    DistinctStep(s, 3);
    assert s[3] !in s[..3] by { assert s[..3] == ["apple", "apple", "grape"]; }
    DistinctStep(s, 4);
    assert s[4] in s[..4] by { assert s[..4][3] == s[4]; }
    DistinctStep(s, 5);
    assert s[5] !in s[..5] by { assert s[..5] == ["apple", "apple", "grape", "melon", "melon"]; }
    assert s[..6] == s;
  }

  lemma FruitCounts()
    ensures Count(Fruit(), "apple") == 2 && Count(Fruit(), "grape") == 1
    ensures Count(Fruit(), "melon") == 2 && Count(Fruit(), "peach") == 1
  {
    assert multiset(Fruit()) == multiset{"apple", "apple", "grape", "melon", "melon", "peach"};
  }

  lemma FruitMax()
    ensures MaxCount(Fruit()) == 2
  {
    var s := Fruit();
    FruitCounts();
    var p1, p2, p3 := ["apple"], ["apple", "apple"], ["apple", "apple", "grape"];
    var p4, p5 := p3 + ["melon"], p3 + ["melon", "melon"];
    assert p1[..0] == [] && p2[..1] == p1 && p3[..2] == p2 && p4[..3] == p3 && p5[..4] == p4 && s[..5] == p5;
    assert MaxOver(p1, s) == 2;
    assert MaxOver(p2, s) == 2;
    assert MaxOver(p3, s) == 2;
    assert MaxOver(p4, s) == 2;
    assert MaxOver(p5, s) == 2;
  }

  /** The example the source's own demonstration prints: (["apple", "melon"], 2). */
  lemma FruitExample()
    ensures MaxCount(Fruit()) == 2 && Modes(Fruit()) == ["apple", "melon"]
  {
    var s := Fruit();
    FruitDistinct();
    FruitCounts();
    FruitMax();
    var d := ["apple", "grape", "melon", "peach"];
    assert d[..3][..2][..1] == ["apple"] && d[..3][..2] == ["apple", "grape"] && d[..3] == ["apple", "grape", "melon"];
    assert WithCount(["apple"], s, 2) == ["apple"] by { assert ["apple"][..0] == []; }
    assert WithCount(["apple", "grape"], s, 2) == ["apple"];
    assert WithCount(["apple", "grape", "melon"], s, 2) == ["apple", "melon"];
  }
}

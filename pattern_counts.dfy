/** How many 13-bit patterns have a given population count, and how the
    patterns of one count split into reversal pairs and palindromes. These are
    the counts that make the table builder's low and high counters meet. */
module PatternCounts {
  import opened Bits
  import opened BitPatterns

  /** The n-bit numbers with exactly k set bits. */
  ghost function PopSet(n: nat, k: nat): set<nat>
  {
    set v: nat | v < Pow2(n) && PopN(v, n) == k
  }

  /** The numbers 2w + b for w in a. */
  ghost function Shifted(a: set<nat>, b: nat): set<nat>
  {
    set w | w in a :: 2 * w + b
  }

  lemma {:induction false} PopSetSplit(n: nat, k: nat)
    ensures PopSet(n + 1, k) ==
      Shifted(PopSet(n, k), 0) + (if k == 0 then {} else Shifted(PopSet(n, k - 1), 1))
  {
    var evens := Shifted(PopSet(n, k), 0);
    var odds: set<nat> := if k == 0 then {} else Shifted(PopSet(n, k - 1), 1);
    assert Pow2(n + 1) == 2 * Pow2(n);
    forall v: nat | v in PopSet(n + 1, k) ensures v in evens + odds {
      var w := v / 2;
      assert PopN(v, n + 1) == v % 2 + PopN(w, n);
      if v % 2 == 0 {
        assert w in PopSet(n, k);
        assert v == 2 * w + 0;
      } else {
        assert w in PopSet(n, k - 1);
        assert v == 2 * w + 1;
      }
    }
    forall v: nat | v in evens + odds ensures v in PopSet(n + 1, k) {
      if v in evens {
        var w :| w in PopSet(n, k) && v == 2 * w + 0;
        assert v / 2 == w && v % 2 == 0;
      } else {
        var w :| w in PopSet(n, k - 1) && v == 2 * w + 1;
        assert v / 2 == w && v % 2 == 1;
      }
    }
  }

  /** Doubling (and adding b) is one-to-one, so it keeps a set's size. */
  lemma {:induction false} ShiftedSize(a: set<nat>, b: nat)
    ensures |Shifted(a, b)| == |a|
    decreases |a|
  {
    if a != {} {
      var x :| x in a;
      var rest := a - {x};
      ShiftedSize(rest, b);
      forall v | v in Shifted(a, b) ensures v in Shifted(rest, b) + {2 * x + b} {
        var w :| w in a && v == 2 * w + b;
        if w != x {
          assert w in rest;
        }
      }
      assert Shifted(a, b) == Shifted(rest, b) + {2 * x + b};
      assert 2 * x + b !in Shifted(rest, b);
    }
  }

  /** Pascal's rule for the n-bit patterns: a pattern of n + 1 bits with k + 1
      set bits has either a clear low bit and k + 1 set bits above it, or a set
      low bit and k set bits above it. */
  lemma PopSetPascal(n: nat, k: nat)
    ensures |PopSet(n + 1, k + 1)| == |PopSet(n, k + 1)| + |PopSet(n, k)|
  {
    PopSetSplit(n, k + 1);
    var evens, odds := Shifted(PopSet(n, k + 1), 0), Shifted(PopSet(n, k), 1);
    ShiftedSize(PopSet(n, k + 1), 0);
    ShiftedSize(PopSet(n, k), 1);
    ShiftedParity(PopSet(n, k + 1), 0);
    ShiftedParity(PopSet(n, k), 1);
    assert evens * odds == {};
  }

  lemma ShiftedParity(a: set<nat>, b: nat)
    requires b < 2
    ensures forall v | v in Shifted(a, b) :: v % 2 == b
  {
    forall v | v in Shifted(a, b) ensures v % 2 == b {
      var w :| w in a && v == 2 * w + b;
    }
  }

  /** Exactly one n-bit pattern, zero, has no bit set. */
  lemma PopSetNone(n: nat)
    ensures |PopSet(n, 0)| == 1
  {
    forall v: nat | v in PopSet(n, 0) ensures v == 0 {
      PopZeroOnlyZero(v, n);
    }
    PopNZero(n);
    assert PopSet(n, 0) == {0};
  }

  lemma {:induction false} PopNZero(n: nat)
    ensures PopN(0, n) == 0
  {
    if n > 0 {
      PopNZero(n - 1);
    }
  }

  lemma {:induction false} PopZeroOnlyZero(v: nat, n: nat)
    requires v < Pow2(n) && PopN(v, n) == 0
    ensures v == 0
  {
    if n > 0 {
      PopZeroOnlyZero(v / 2, n - 1);
    }
  }

  /** The empty pattern has no set bit. */
  lemma PopSetEmptyWidth(k: nat)
    ensures |PopSet(0, k + 1)| == 0
  {
    assert PopSet(0, k + 1) == {};
  }

  /** One step down Pascal's triangle, columns 0 to 5. */
  lemma NextRow(n: nat, c0: nat, c1: nat, c2: nat, c3: nat, c4: nat, c5: nat)
    requires |PopSet(n, 0)| == c0 && |PopSet(n, 1)| == c1 && |PopSet(n, 2)| == c2
    requires |PopSet(n, 3)| == c3 && |PopSet(n, 4)| == c4 && |PopSet(n, 5)| == c5
    ensures |PopSet(n + 1, 0)| == c0 && |PopSet(n + 1, 1)| == c0 + c1
    ensures |PopSet(n + 1, 2)| == c1 + c2 && |PopSet(n + 1, 3)| == c2 + c3
    ensures |PopSet(n + 1, 4)| == c3 + c4 && |PopSet(n + 1, 5)| == c4 + c5
  {
    PopSetNone(n);
    PopSetNone(n + 1);
    PopSetPascal(n, 0);
    PopSetPascal(n, 1);
    PopSetPascal(n, 2);
    PopSetPascal(n, 3);
    PopSetPascal(n, 4);
  }

  /** There are C(13,5) = 1287 patterns of 13 bits with 5 set bits and
      C(13,2) = 78 with 2 set bits. */
  lemma PopSetSizes()
    ensures |PopSet(Width, 5)| == 1287
    ensures |PopSet(Width, 2)| == 78
  {
    PopSetNone(0);
    PopSetEmptyWidth(0);
    PopSetEmptyWidth(1);
    PopSetEmptyWidth(2);
    PopSetEmptyWidth(3);
    PopSetEmptyWidth(4);
    NextRow(0, 1, 0, 0, 0, 0, 0);
    NextRow(1, 1, 1, 0, 0, 0, 0);
    NextRow(2, 1, 2, 1, 0, 0, 0);
    NextRow(3, 1, 3, 3, 1, 0, 0);
    NextRow(4, 1, 4, 6, 4, 1, 0);
    NextRow(5, 1, 5, 10, 10, 5, 1);
    NextRow(6, 1, 6, 15, 20, 15, 6);
    NextRow(7, 1, 7, 21, 35, 35, 21);
    NextRow(8, 1, 8, 28, 56, 70, 56);
    NextRow(9, 1, 9, 36, 84, 126, 126);
    NextRow(10, 1, 10, 45, 120, 210, 252);
    NextRow(11, 1, 11, 55, 165, 330, 462);
    NextRow(12, 1, 12, 66, 220, 495, 792);
  }

  /** A subset is no larger than the set that holds it. */
  lemma {:induction false} SubsetSize(a: set<nat>, b: set<nat>)
    requires a <= b
    ensures |a| <= |b|
    decreases |a|
  {
    if a != {} {
      var x :| x in a;
      SubsetSize(a - {x}, b - {x});
    }
  }

  /** The 13-bit patterns with k set bits, the builder's candidates for one family. */
  ghost function Family(k: nat): set<nat>
  {
    set v: nat | v < Space && Pop(v) == k
  }

  /** Candidates that come before their own reversal: the builder stores such a
      pattern and its reversal as a pair from the low end. */
  ghost function Smaller(k: nat): set<nat>
  {
    set v: nat | v < Space && Pop(v) == k && v < Rev(v)
  }

  ghost function Larger(k: nat): set<nat>
  {
    set v: nat | v < Space && Pop(v) == k && Rev(v) < v
  }

  /** Candidates equal to their own reversal, stored one by one from the high end. */
  ghost function Palindromes(k: nat): set<nat>
  {
    set v: nat | v < Space && Pop(v) == k && v == Rev(v)
  }

  lemma FamilySize(k: nat)
    ensures k == 5 ==> |Family(k)| == 1287
    ensures k == 2 ==> |Family(k)| == 78
  {
    Space13();
    assert Family(k) == PopSet(Width, k);
    PopSetSizes();
  }

  lemma FamilyPartition(k: nat)
    ensures Family(k) == Smaller(k) + Larger(k) + Palindromes(k)
    ensures |Family(k)| == |Smaller(k)| + |Larger(k)| + |Palindromes(k)|
  {
    var s, l, p := Smaller(k), Larger(k), Palindromes(k);
    assert Family(k) == s + l + p;
    assert s * l == {};
    assert |s + l| == |s| + |l|;
    assert (s + l) * p == {};
  }

  /** The reversals of a set of 13-bit patterns. */
  ghost function Reversals(a: set<nat>): set<nat>
  {
    set v | v in a :: Rev(v)
  }

  /** Reversal undoes itself, so it keeps a set's size. */
  lemma {:induction false} ReversalsSize(a: set<nat>)
    requires forall v | v in a :: v < Space
    ensures |Reversals(a)| == |a|
    decreases |a|
  {
    if a != {} {
      var x :| x in a;
      var rest := a - {x};
      ReversalsSize(rest);
      assert Reversals(a) == Reversals(rest) + {Rev(x)};
      if Rev(x) in Reversals(rest) {
        var y :| y in rest && Rev(x) == Rev(y);
        RevFacts(x);
        RevFacts(y);
        assert false;
      }
    }
  }

  lemma ReversalPairsUp(k: nat)
    ensures |Smaller(k)| == |Larger(k)|
  {
    ReversalsSize(Smaller(k));
    forall v | v in Reversals(Smaller(k)) ensures v in Larger(k) {
      var w :| w in Smaller(k) && v == Rev(w);
      RevFacts(w);
    }
    forall v | v in Larger(k) ensures v in Reversals(Smaller(k)) {
      RevFacts(v);
      assert Rev(v) in Smaller(k);
    }
    assert Reversals(Smaller(k)) == Larger(k);
  }

  /** Reversal pairs every smaller pattern with a larger one, so the family's
      size is twice the number of pairs plus the number of palindromes. */
  lemma FamilySplit(k: nat)
    ensures 2 * |Smaller(k)| + |Palindromes(k)| == |Family(k)|
  {
    FamilyPartition(k);
    ReversalPairsUp(k);
  }
}

/** What `repair_chars` and `try_repair` compute, stated on values: each
    character the tables do not know is replaced by the known characters one
    bit flip away, and every combination is tried in order, giving up on a
    second decoding combination. */
module CharRepair {
  import opened Wrappers
  import opened Bits
  import opened BitPatterns
  import opened Codewords
  import opened Decoding
  import opened Bars

  /** The number of characters in a barcode. */
  const NumChars: nat := 10

  /** A successful repair, with the bars of the repaired characters as the
      suggestion, or the report that two combinations decode. */
  datatype Repaired = Solved(fields: Fields, suggest: string) | Ambiguous

  /** `decode_chars` on one full combination, with its suggestion. */
  function Leaf(b: Book, chars: seq<nat>): Option<Repaired>
    requires Shaped(b) && |chars| == 10
  {
    match Decode(b, chars)
    case None => None
    case Some(f) => Some(Solved(f, CharsToText(chars)))
  }

  /** `try_repair` at position |prefix| from candidate n on, with the result
      inf found so far: each candidate is tried in turn below the prefix, and
      a second result ends the search with `Ambiguous`. */
  function Try(b: Book, possible: seq<seq<nat>>, prefix: seq<nat>, n: nat, inf: Option<Repaired>): Option<Repaired>
    requires Shaped(b) && |possible| == 10 && |prefix| < 10 && n <= |possible[|prefix|]|
    decreases 10 - |prefix|, |possible[|prefix|]| - n
  {
    var pos := |prefix|;
    if n == |possible[pos]| then inf
    else
      var next := prefix + [possible[pos][n]];
      var newinf := if pos < 9 then Try(b, possible, next, 0, None) else Leaf(b, next);
      if newinf.None? then Try(b, possible, prefix, n + 1, inf)
      else if inf.Some? then Some(Ambiguous)
      else Try(b, possible, prefix, n + 1, newinf)
  }

  /** One candidate of Try, given what the search below it returned. */
  lemma TryStep(b: Book, possible: seq<seq<nat>>, prefix: seq<nat>, n: nat, inf: Option<Repaired>, newinf: Option<Repaired>)
    requires Shaped(b) && |possible| == 10 && |prefix| < 10 && n < |possible[|prefix|]|
    requires var next := prefix + [possible[|prefix|][n]];
      newinf == if |prefix| < 9 then Try(b, possible, next, 0, None) else Leaf(b, next)
    ensures Try(b, possible, prefix, n, inf) ==
      if newinf.None? then Try(b, possible, prefix, n + 1, inf)
      else if inf.Some? then Some(Ambiguous)
      else Try(b, possible, prefix, n + 1, newinf)
  {
  }

  /** The number of combinations that extend prefix, taking candidate n or a
      later one at position |prefix| and any candidate after it, and decode. */
  function Count(b: Book, possible: seq<seq<nat>>, prefix: seq<nat>, n: nat): nat
    requires Shaped(b) && |possible| == 10 && |prefix| < 10 && n <= |possible[|prefix|]|
    decreases 10 - |prefix|, |possible[|prefix|]| - n
  {
    var pos := |prefix|;
    if n == |possible[pos]| then 0
    else
      var next := prefix + [possible[pos][n]];
      var here := if pos < 9 then Count(b, possible, next, 0)
                  else if Decode(b, next).Some? then 1 else 0;
      here + Count(b, possible, prefix, n + 1)
  }

  /** How many results a search result stands for, counting two for many. */
  function Tally(r: Option<Repaired>): nat
  {
    match r
    case None => 0
    case Some(Solved(_, _)) => 1
    case Some(Ambiguous) => 2
  }

  function Min2(k: nat): nat
  {
    if k < 2 then k else 2
  }

  /** The search finds nothing when no combination decodes, the one result
      when exactly one does, and `Ambiguous` when two or more do. */
  lemma {:induction false} TryTally(b: Book, possible: seq<seq<nat>>, prefix: seq<nat>, n: nat, inf: Option<Repaired>)
    requires Shaped(b) && |possible| == 10 && |prefix| < 10 && n <= |possible[|prefix|]|
    ensures Tally(Try(b, possible, prefix, n, inf)) == Min2(Tally(inf) + Count(b, possible, prefix, n))
    decreases 10 - |prefix|, |possible[|prefix|]| - n
  {
    var pos := |prefix|;
    if n < |possible[pos]| {
      var next := prefix + [possible[pos][n]];
      var newinf := if pos < 9 then Try(b, possible, next, 0, None) else Leaf(b, next);
      if pos < 9 {
        TryTally(b, possible, next, 0, None);
      }
      if newinf.None? {
        TryTally(b, possible, prefix, n + 1, inf);
      } else if inf.None? {
        TryTally(b, possible, prefix, n + 1, newinf);
      }
    }
  }

  /** combo fills in the positions after prefix with candidates. */
  predicate Completes(possible: seq<seq<nat>>, prefix: seq<nat>, combo: seq<nat>)
    requires |possible| == 10
  {
    |combo| == 10 && |prefix| <= 10 && combo[..|prefix|] == prefix &&
    forall i :: |prefix| <= i < 10 ==> combo[i] in possible[i]
  }

  /** r is what one combination extending prefix decodes to. */
  ghost predicate Witnessed(b: Book, possible: seq<seq<nat>>, prefix: seq<nat>, r: Repaired)
    requires Shaped(b) && |possible| == 10
  {
    exists combo :: Completes(possible, prefix, combo) && Leaf(b, combo) == Some(r)
  }

  lemma Extends(possible: seq<seq<nat>>, prefix: seq<nat>, k: nat, combo: seq<nat>)
    requires |possible| == 10 && |prefix| < 10 && k < |possible[|prefix|]|
    requires Completes(possible, prefix + [possible[|prefix|][k]], combo)
    ensures Completes(possible, prefix, combo)
  {
    var next := prefix + [possible[|prefix|][k]];
    assert combo[..|prefix|] == next[..|prefix|];
    assert combo[|prefix|] == next[|prefix|];
  }

  /** A repair the search reports is the decode of one of the combinations
      it tried, with those combination's bars as the suggestion. */
  lemma {:induction false} TrySolved(b: Book, possible: seq<seq<nat>>, prefix: seq<nat>, n: nat, inf: Option<Repaired>)
    requires Shaped(b) && |possible| == 10 && |prefix| < 10 && n <= |possible[|prefix|]|
    requires inf.Some? && inf.value.Solved? ==> Witnessed(b, possible, prefix, inf.value)
    ensures var r := Try(b, possible, prefix, n, inf);
      r.Some? && r.value.Solved? ==> Witnessed(b, possible, prefix, r.value)
    decreases 10 - |prefix|, |possible[|prefix|]| - n
  {
    var pos := |prefix|;
    if n < |possible[pos]| {
      var next := prefix + [possible[pos][n]];
      var newinf := if pos < 9 then Try(b, possible, next, 0, None) else Leaf(b, next);
      if newinf.None? {
        assert Try(b, possible, prefix, n, inf) == Try(b, possible, prefix, n + 1, inf);
        TrySolved(b, possible, prefix, n + 1, inf);
      } else if inf.None? {
        assert Try(b, possible, prefix, n, inf) == Try(b, possible, prefix, n + 1, newinf);
        if newinf.value.Solved? {
          if pos < 9 {
            TrySolved(b, possible, next, 0, None);
            Lift(b, possible, prefix, n, newinf.value);
          } else {
            LeafWitness(b, possible, prefix, n);
          }
        }
        TrySolved(b, possible, prefix, n + 1, newinf);
      }
    }
  }

  /** A combination witnessing r below candidate n also witnesses it for
      prefix. */
  lemma Lift(b: Book, possible: seq<seq<nat>>, prefix: seq<nat>, n: nat, r: Repaired)
    requires Shaped(b) && |possible| == 10 && |prefix| < 10 && n < |possible[|prefix|]|
    requires Witnessed(b, possible, prefix + [possible[|prefix|][n]], r)
    ensures Witnessed(b, possible, prefix, r)
  {
    var combo :| Completes(possible, prefix + [possible[|prefix|][n]], combo) && Leaf(b, combo) == Some(r);
    Extends(possible, prefix, n, combo);
    assert Completes(possible, prefix, combo) && Leaf(b, combo) == Some(r);
  }

  /** A decoding full combination witnesses its own result. */
  lemma LeafWitness(b: Book, possible: seq<seq<nat>>, prefix: seq<nat>, n: nat)
    requires Shaped(b) && |possible| == 10 && |prefix| == 9 && n < |possible[|prefix|]|
    requires Leaf(b, prefix + [possible[|prefix|][n]]).Some?
    ensures Witnessed(b, possible, prefix, Leaf(b, prefix + [possible[|prefix|][n]]).value)
  {
    var combo := prefix + [possible[|prefix|][n]];
    assert combo[..|combo|] == combo;
    Extends(possible, prefix, n, combo);
    assert Completes(possible, prefix, combo) && Leaf(b, combo) == Some(Leaf(b, combo).value);
  }

  /** The known characters among c with one of its bits 0..k-1 flipped, in
      bit order. */
  function Flips(b: Book, c: nat, k: nat): (r: seq<nat>)
    requires Shaped(b)
    ensures forall d :: d in r ==> Known(b, d)
  {
    if k == 0 then []
    else
      var d := Xor(c, Pow2(k - 1));
      Flips(b, c, k - 1) + (if Known(b, d) then [d] else [])
  }

  /** d differs from c in exactly one of bits 0..k-1. */
  ghost predicate OneFlip(c: nat, d: nat, k: nat)
  {
    exists bit :: 0 <= bit < k && d == Xor(c, Pow2(bit))
  }

  /** The flips within k bits are those within k - 1 bits and the flip of
      bit k - 1. */
  lemma OneFlipStep(c: nat, d: nat, k: nat)
    requires k > 0
    ensures OneFlip(c, d, k) <==> OneFlip(c, d, k - 1) || d == Xor(c, Pow2(k - 1))
  {
    if OneFlip(c, d, k) && d != Xor(c, Pow2(k - 1)) {
      var bit :| 0 <= bit < k && d == Xor(c, Pow2(bit));
      assert bit < k - 1;
    }
    if OneFlip(c, d, k - 1) {
      var bit :| 0 <= bit < k - 1 && d == Xor(c, Pow2(bit));
      assert 0 <= bit < k;
    }
    if d == Xor(c, Pow2(k - 1)) {
      assert 0 <= k - 1 < k;
    }
  }

  /** The flips listed are exactly the known single-bit flips. */
  lemma {:induction false} FlipsExactly(b: Book, c: nat, k: nat, d: nat)
    requires Shaped(b)
    ensures d in Flips(b, c, k) <==> Known(b, d) && OneFlip(c, d, k)
  {
    if k > 0 {
      FlipsExactly(b, c, k - 1, d);
      OneFlipStep(c, d, k);
      var e := Xor(c, Pow2(k - 1));
      assert Flips(b, c, k) == Flips(b, c, k - 1) + (if Known(b, e) then [e] else []);
    }
  }

  /** The candidates for character c: itself when known, otherwise its
      known single-bit flips. */
  function Options(b: Book, c: nat): seq<nat>
    requires Shaped(b)
  {
    if Known(b, c) then [c] else Flips(b, c, Width)
  }

  /** The candidate lists of the first n characters. */
  function Possible(b: Book, chars: seq<nat>, n: nat): (p: seq<seq<nat>>)
    requires Shaped(b) && n <= |chars|
    ensures |p| == n && forall i :: 0 <= i < n ==> p[i] == Options(b, chars[i])
  {
    if n == 0 then [] else Possible(b, chars, n - 1) + [Options(b, chars[n - 1])]
  }

  /** The number of combinations of the first n characters. */
  function Prod(b: Book, chars: seq<nat>, n: nat): nat
    requires Shaped(b) && n <= |chars|
  {
    if n == 0 then 1 else Prod(b, chars, n - 1) * |Options(b, chars[n - 1])|
  }

  /** The loop of `repair_chars` gave up within its first n rounds: the
      running product was 0 or above 1000 after one of them. */
  function Stops(b: Book, chars: seq<nat>, n: nat): bool
    requires Shaped(b) && n <= |chars|
  {
    n > 0 && (Stops(b, chars, n - 1) || Prod(b, chars, n) == 0 || Prod(b, chars, n) > 1000)
  }

  /** Once given up, the loop stays given up. */
  lemma {:induction false} StopsLater(b: Book, chars: seq<nat>, n: nat, m: nat)
    requires Shaped(b) && n <= m <= |chars| && Stops(b, chars, n)
    ensures Stops(b, chars, m)
    decreases m - n
  {
    if n < m {
      StopsLater(b, chars, n, m - 1);
    }
  }

  /** `repair_chars`. */
  function RepairedChars(b: Book, chars: seq<nat>): Option<Repaired>
    requires Shaped(b) && |chars| >= 10
  {
    if Stops(b, chars, NumChars) then None
    else Try(b, Possible(b, chars, NumChars), [], 0, None)
  }

  /** Giving up early is the same as a final product of 0 or above 1000,
      because the product never shrinks once it is positive. */
  lemma {:induction false} StopsIff(b: Book, chars: seq<nat>, n: nat)
    requires Shaped(b) && n <= |chars|
    ensures Stops(b, chars, n) <==> Prod(b, chars, n) == 0 || Prod(b, chars, n) > 1000
  {
    if n > 0 {
      StopsIff(b, chars, n - 1);
      Grows(Prod(b, chars, n - 1), |Options(b, chars[n - 1])|);
    }
  }

  lemma Grows(p: nat, k: nat)
    ensures p == 0 ==> p * k == 0
    ensures k > 0 ==> p * k >= p
  {
  }

  /** A character with no candidates makes the product 0. */
  lemma {:induction false} ProdZero(b: Book, chars: seq<nat>, n: nat, i: nat)
    requires Shaped(b) && i < n <= |chars| && Options(b, chars[i]) == []
    ensures Prod(b, chars, n) == 0
  {
    if i < n - 1 {
      ProdZero(b, chars, n - 1, i);
      Grows(Prod(b, chars, n - 1), |Options(b, chars[n - 1])|);
    }
  }

  /** `repair_chars` gives up on an unknown character none of whose
      single-bit flips is known. */
  lemma NoNeighbour(b: Book, chars: seq<nat>, i: nat)
    requires Shaped(b) && |chars| >= 10 && i < 10
    requires !Known(b, chars[i]) && forall d :: OneFlip(chars[i], d, Width) ==> !Known(b, d)
    ensures RepairedChars(b, chars) == None
  {
    if Flips(b, chars[i], Width) != [] {
      var d := Flips(b, chars[i], Width)[0];
      FlipsExactly(b, chars[i], Width, d);
    }
    ProdZero(b, chars, NumChars, i);
    StopsIff(b, chars, NumChars);
  }

  /** What `repair_chars` returns when it does not give up: nothing when no
      combination decodes, the one decode when exactly one does, and
      `Ambiguous` when two or more do. */
  lemma RepairOutcome(b: Book, chars: seq<nat>)
    requires Shaped(b) && |chars| >= 10 && 0 < Prod(b, chars, NumChars) <= 1000
    ensures var r := RepairedChars(b, chars);
      var count := Count(b, Possible(b, chars, NumChars), [], 0);
      (r.None? <==> count == 0) && (r == Some(Ambiguous) <==> count >= 2) &&
      (r.Some? && r.value.Solved? ==> count == 1 && Witnessed(b, Possible(b, chars, NumChars), [], r.value))
  {
    StopsIff(b, chars, NumChars);
    var p := Possible(b, chars, NumChars);
    var r := Try(b, p, [], 0, None);
    assert RepairedChars(b, chars) == r;
    TryTally(b, p, [], 0, None);
    TrySolved(b, p, [], 0, None);
    TallyCases(r, Count(b, p, [], 0));
  }

  lemma TallyCases(r: Option<Repaired>, count: nat)
    requires Tally(r) == Min2(count)
    ensures (r.None? <==> count == 0) && (r == Some(Ambiguous) <==> count >= 2)
    ensures r.Some? && r.value.Solved? ==> count == 1
  {
  }
}

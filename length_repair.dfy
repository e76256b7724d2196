/** What `repair_barcode` computes, stated on values: a barcode one bar
    short (64) or one bar long (66) is tried with a bar inserted or removed
    at each of 66 positions, and the earliest candidate with the fewest
    characters the tables do not know, if fewer than 5, replaces it. */
module LengthRepair {
  import opened Wrappers
  import opened Codewords
  import opened Decoding
  import opened Bars

  /** The positions tried and the bound the number of unknown characters
      must stay under. */
  const Slots: nat := 66
  const MaxErrs: nat := 5

  /** The candidate at pos: "X" inserted when the barcode is short, the bar
      at pos removed when it is long; slices past the end are cut at the
      end. */
  function Candidate(barcode: string, longer: bool, pos: nat): string
  {
    var i := if pos <= |barcode| then pos else |barcode|;
    var j := if pos + 1 <= |barcode| then pos + 1 else |barcode|;
    if longer then barcode[..i] + "X" + barcode[i..]
    else barcode[..i] + barcode[j..]
  }

  lemma CandidateLength(barcode: string, longer: bool, pos: nat)
    requires !longer ==> pos < |barcode|
    ensures |Candidate(barcode, longer, pos)| == if longer then |barcode| + 1 else |barcode| - 1
  {
  }

  /** The number of the first n characters the tables do not know. */
  function Errs(b: Book, chars: seq<nat>, n: nat): (e: nat)
    requires Shaped(b) && n <= |chars|
    ensures e <= n
  {
    if n == 0 then 0 else Errs(b, chars, n - 1) + (if Known(b, chars[n - 1]) then 0 else 1)
  }

  /** Lenient conversion never fails. */
  lemma LenientSome(s: string)
    ensures Permute(s, false).Some?
  {
    ScanFails(Padded(CleanStr(s)), 0, Bars.Blank(), false);
  }

  /** The characters of s read leniently. */
  function Lenient(s: string): (chars: seq<nat>)
    ensures |chars| == 10
  {
    LenientSome(s);
    Permute(s, false).value
  }

  /** The number of unknown characters of each of the candidates. */
  function Misses(b: Book, barcode: string, longer: bool): (m: seq<nat>)
    requires Shaped(b)
    ensures |m| == Slots
  {
    seq(Slots, q requires 0 <= q => Errs(b, Lenient(Candidate(barcode, longer, q)), 10))
  }

  /** The loop of `repair_barcode` from position pos on, with the best
      candidate and its count so far. */
  function Pick(b: Book, barcode: string, longer: bool, pos: nat, best: string, besterrs: nat): (string, nat)
    requires Shaped(b)
    decreases Slots - pos
  {
    if pos >= Slots then (best, besterrs)
    else
      var testcode := Candidate(barcode, longer, pos);
      match Permute(testcode, false)
      case None => Pick(b, barcode, longer, pos + 1, best, besterrs)
      case Some(chars) =>
        var errs := Errs(b, chars, 10);
        if errs < besterrs then Pick(b, barcode, longer, pos + 1, testcode, errs)
        else Pick(b, barcode, longer, pos + 1, best, besterrs)
  }

  /** `repair_barcode`. */
  function RepairedBarcode(b: Book, barcode: string): string
    requires Shaped(b)
  {
    if |barcode| == 64 then Pick(b, barcode, true, 0, barcode, MaxErrs).0
    else if |barcode| == 66 then Pick(b, barcode, false, 0, barcode, MaxErrs).0
    else barcode
  }

  /** p is the earliest of the first upto candidates with the fewest unknown
      characters, and that is fewer than 5. */
  ghost predicate Earliest(m: seq<nat>, p: nat, upto: nat)
    requires upto <= |m|
  {
    p < upto && m[p] < MaxErrs &&
    (forall q :: 0 <= q < upto ==> m[q] >= m[p]) &&
    (forall q :: 0 <= q < p ==> m[q] > m[p])
  }

  /** What the loop keeps after pos candidates: the barcode itself when
      every candidate so far had 5 or more unknown characters, otherwise the
      earliest best candidate and its count. */
  ghost predicate Kept(m: seq<nat>, barcode: string, longer: bool, pos: nat, best: string, errs: nat)
    requires pos <= |m|
  {
    (best == barcode && errs == MaxErrs && forall q :: 0 <= q < pos ==> m[q] >= MaxErrs) ||
    (exists p: nat :: Earliest(m, p, pos) && best == Candidate(barcode, longer, p) && errs == m[p])
  }

  lemma KeptStep(m: seq<nat>, barcode: string, longer: bool, pos: nat, best: string, errs: nat)
    requires pos < |m| && Kept(m, barcode, longer, pos, best, errs)
    ensures if m[pos] < errs then Kept(m, barcode, longer, pos + 1, Candidate(barcode, longer, pos), m[pos])
      else Kept(m, barcode, longer, pos + 1, best, errs)
  {
    if best == barcode && errs == MaxErrs && forall q :: 0 <= q < pos ==> m[q] >= MaxErrs {
      if m[pos] < errs {
        assert Earliest(m, pos, pos + 1);
      }
    } else {
      var p: nat :| Earliest(m, p, pos) && best == Candidate(barcode, longer, p) && errs == m[p];
      if m[pos] < errs {
        assert Earliest(m, pos, pos + 1);
      } else {
        assert Earliest(m, p, pos + 1);
      }
    }
  }

  /** The same loop on the counts m of the candidates, worked out in
      advance. */
  function PickFrom(m: seq<nat>, barcode: string, longer: bool, pos: nat, best: string, besterrs: nat): (string, nat)
    requires |m| == Slots
    decreases Slots - pos
  {
    if pos >= Slots then (best, besterrs)
    else if m[pos] < besterrs then PickFrom(m, barcode, longer, pos + 1, Candidate(barcode, longer, pos), m[pos])
    else PickFrom(m, barcode, longer, pos + 1, best, besterrs)
  }

  /** One step of the loop: the candidate at pos always reads leniently, so
      only its count decides. */
  lemma PickStep(b: Book, barcode: string, longer: bool, pos: nat, best: string, errs: nat, e: nat)
    requires Shaped(b) && pos < Slots && e == Errs(b, Lenient(Candidate(barcode, longer, pos)), 10)
    ensures Pick(b, barcode, longer, pos, best, errs) ==
      if e < errs then Pick(b, barcode, longer, pos + 1, Candidate(barcode, longer, pos), e)
      else Pick(b, barcode, longer, pos + 1, best, errs)
  {
    var testcode := Candidate(barcode, longer, pos);
    LenientSome(testcode);
    assert Permute(testcode, false) == Some(Lenient(testcode));
  }

  /** The loop only ever looks at the counts of the candidates. */
  lemma {:induction false} PickCounts(b: Book, barcode: string, longer: bool, pos: nat, best: string, errs: nat)
    requires Shaped(b) && pos <= Slots
    ensures Pick(b, barcode, longer, pos, best, errs) == PickFrom(Misses(b, barcode, longer), barcode, longer, pos, best, errs)
    decreases Slots - pos
  {
    if pos < Slots {
      var m := Misses(b, barcode, longer);
      PickStep(b, barcode, longer, pos, best, errs, m[pos]);
      if m[pos] < errs {
        PickCounts(b, barcode, longer, pos + 1, Candidate(barcode, longer, pos), m[pos]);
      } else {
        PickCounts(b, barcode, longer, pos + 1, best, errs);
      }
    }
  }

  lemma {:induction false} PickKept(m: seq<nat>, barcode: string, longer: bool, pos: nat, best: string, errs: nat)
    requires |m| == Slots && pos <= Slots && Kept(m, barcode, longer, pos, best, errs)
    ensures Kept(m, barcode, longer, Slots, PickFrom(m, barcode, longer, pos, best, errs).0,
                 PickFrom(m, barcode, longer, pos, best, errs).1)
    decreases Slots - pos
  {
    if pos < Slots {
      var best' := if m[pos] < errs then Candidate(barcode, longer, pos) else best;
      var errs' := if m[pos] < errs then m[pos] else errs;
      KeptStep(m, barcode, longer, pos, best, errs);
      assert Kept(m, barcode, longer, pos + 1, best', errs');
      PickKept(m, barcode, longer, pos + 1, best', errs');
      assert PickFrom(m, barcode, longer, pos, best, errs) == PickFrom(m, barcode, longer, pos + 1, best', errs');
    }
  }

  /** The loop over the counts of one barcode of 64 (longer) or 66 bars. */
  lemma PickFromBest(m: seq<nat>, barcode: string, longer: bool)
    requires |m| == Slots && |barcode| == (if longer then 64 else 66)
    ensures
      var r := PickFrom(m, barcode, longer, 0, barcode, MaxErrs).0;
      (r == barcode && forall q :: 0 <= q < Slots ==> m[q] >= MaxErrs) ||
      (exists p: nat :: Earliest(m, p, Slots) && r == Candidate(barcode, longer, p) && |r| == 65)
  {
    PickKept(m, barcode, longer, 0, barcode, MaxErrs);
    var r := PickFrom(m, barcode, longer, 0, barcode, MaxErrs).0;
    if !(r == barcode && forall q :: 0 <= q < Slots ==> m[q] >= MaxErrs) {
      var p: nat :| Earliest(m, p, Slots) && r == Candidate(barcode, longer, p);
      assert p < Slots;
      CandidateLength(barcode, longer, p);
    }
  }

  /** The whole loop over one barcode of 64 (longer) or 66 bars. */
  lemma PickBest(b: Book, barcode: string, longer: bool)
    requires Shaped(b) && |barcode| == (if longer then 64 else 66)
    ensures
      var m := Misses(b, barcode, longer);
      var r := Pick(b, barcode, longer, 0, barcode, MaxErrs).0;
      (r == barcode && forall q :: 0 <= q < Slots ==> m[q] >= MaxErrs) ||
      (exists p: nat :: Earliest(m, p, Slots) && r == Candidate(barcode, longer, p) && |r| == 65)
  {
    PickCounts(b, barcode, longer, 0, barcode, MaxErrs);
    PickFromBest(Misses(b, barcode, longer), barcode, longer);
  }

  /** `repair_barcode` leaves a barcode that is not 64 or 66 bars long
      alone; otherwise it returns the barcode when every candidate has 5 or
      more unknown characters, and else the earliest candidate with the
      fewest, which is 65 bars long. */
  lemma RepairBarcodeBest(b: Book, barcode: string)
    requires Shaped(b)
    ensures |barcode| != 64 && |barcode| != 66 ==> RepairedBarcode(b, barcode) == barcode
    ensures |barcode| == 64 || |barcode| == 66 ==>
      var longer := |barcode| == 64;
      var m := Misses(b, barcode, longer);
      var r := RepairedBarcode(b, barcode);
      (r == barcode && forall q :: 0 <= q < Slots ==> m[q] >= MaxErrs) ||
      (exists p: nat :: Earliest(m, p, Slots) && r == Candidate(barcode, longer, p) && |r| == 65)
  {
    if |barcode| == 64 || |barcode| == 66 {
      PickBest(b, barcode, |barcode| == 64);
    }
  }
}

/** The codeword tables of the Intelligent Mail barcode (USPS-B-3200, step 5):
    `encode` maps each of the 1365 codewords to a 13-bit character, `decode`
    maps a character (or its bitwise complement) back to its codeword, and
    `fcs` records on which side of the complement a character lies. */
module Codewords {
  import opened Wrappers
  import opened Bits
  import opened BitPatterns
  import opened PatternCounts

  const TableSize: nat := 1365
  /** Codewords 0..1286 are the 5-of-13 characters, 1287..1364 the 2-of-13 ones. */
  const FiveCount: nat := 1287

  /** The contents of the three tables at one moment. */
  datatype Book = Book(encode: seq<nat>, decode: seq<Option<nat>>, fcs: seq<nat>)

  ghost predicate Shaped(b: Book)
  {
    |b.encode| == TableSize && |b.decode| == Space && |b.fcs| == Space
  }

  /** `v ^ 8191` for a 13-bit v: every bar state inverted. */
  function Complement(v: nat): (c: nat)
    requires v < Space
    ensures c < Space
  {
    AllOnes - v
  }

  /** One store of the builder: character v becomes codeword i, and its
      complement decodes to i as well, with the frame-check bit set. */
  function Put(b: Book, v: nat, i: nat): (r: Book)
    requires Shaped(b) && v < Space && i < TableSize
    ensures Shaped(r)
  {
    Book(b.encode[i := v],
         b.decode[v := Some(i)][Complement(v) := Some(i)],
         b.fcs[v := 0][Complement(v) := 1])
  }

  function Min(x: nat, y: nat): nat { if x <= y then x else y }

  /** The codewords handed out so far: from the bottom up to low, and from the top down to hi. */
  predicate Filled(i: int, low0: int, low: int, hi: int, hi0: int)
  {
    low0 <= i < low || hi < i <= hi0
  }

  ghost predicate Untouched(b: Book, b0: Book, v: nat)
    requires Shaped(b) && Shaped(b0) && v < Space
  {
    b.decode[v] == b0.decode[v] && b.fcs[v] == b0.fcs[v]
  }

  /** Neither v nor its complement has been written. */
  ghost predicate PairUntouched(b: Book, b0: Book, v: nat)
    requires Shaped(b) && Shaped(b0) && v < Space
  {
    Untouched(b, b0, v) && Untouched(b, b0, Complement(v))
  }

  /** v and its complement decode to a codeword that encodes back to v. */
  ghost predicate Stored(b: Book, v: nat)
    requires Shaped(b) && v < Space
  {
    b.decode[v].Some? && b.decode[v].value < TableSize &&
    b.encode[b.decode[v].value] == v && b.fcs[v] == 0 &&
    b.decode[Complement(v)] == b.decode[v] && b.fcs[Complement(v)] == 1
  }

  // ----- the state of one build call, for a set D of k-bit characters already stored -----

  /** The k-bit characters in D are stored under codewords handed out so far;
      the other k-bit characters and their complements are as they were. */
  ghost predicate FamilyStored(b: Book, b0: Book, k: nat, low0: nat, low: int, hi: int, hi0: nat, D: set<nat>)
    requires Shaped(b) && Shaped(b0)
  {
    forall v: nat | v < Space && Pop(v) == k ::
      if v in D then Stored(b, v) && Filled(b.decode[v].value, low0, low, hi, hi0)
      else PairUntouched(b, b0, v)
  }

  /** Characters outside the family and its complements keep their entries. */
  ghost predicate OthersKept(b: Book, b0: Book, k: nat)
    requires Shaped(b) && Shaped(b0)
  {
    forall v: nat | v < Space && Pop(v) != k && Pop(v) != Width - k :: Untouched(b, b0, v)
  }

  /** Every codeword handed out encodes a k-bit character of D that decodes back to it. */
  ghost predicate CodesFilled(b: Book, k: nat, low0: nat, low: int, hi: int, hi0: nat, D: set<nat>)
    requires Shaped(b)
  {
    forall i: nat | i < TableSize && Filled(i, low0, low, hi, hi0) ::
      b.encode[i] < Space && Pop(b.encode[i]) == k && b.encode[i] in D &&
      b.decode[b.encode[i]] == Some(i)
  }

  /** Codewords not handed out keep their entries. */
  ghost predicate CodesKept(b: Book, b0: Book, low0: nat, low: int, hi: int, hi0: nat)
    requires Shaped(b) && Shaped(b0)
  {
    forall i: nat | i < TableSize && !Filled(i, low0, low, hi, hi0) :: b.encode[i] == b0.encode[i]
  }

  ghost predicate Stocked(b: Book, b0: Book, k: nat, low0: nat, low: int, hi: int, hi0: nat, D: set<nat>)
  {
    Shaped(b) && Shaped(b0) && k <= Width && hi0 < TableSize && low0 <= low && hi <= hi0 &&
    FamilyStored(b, b0, k, low0, low, hi, hi0, D) &&
    OthersKept(b, b0, k) &&
    CodesFilled(b, k, low0, low, hi, hi0, D) &&
    CodesKept(b, b0, low0, low, hi, hi0)
  }

  /** The next codeword handed out is low (counting up) or hi (counting down). */
  predicate NextCode(i: int, low: int, hi: int, low': int, hi': int)
  {
    low <= hi &&
    ((i == low && low' == low + 1 && hi' == hi) || (i == hi && low' == low && hi' == hi - 1))
  }

  lemma FamilyPut(b: Book, b0: Book, k: nat, low0: nat, low: int, hi: int, hi0: nat, D: set<nat>,
                  v: nat, i: nat, low': int, hi': int)
    requires Shaped(b) && Shaped(b0) && k <= Width && i < TableSize && low0 <= low && hi <= hi0
    requires FamilyStored(b, b0, k, low0, low, hi, hi0, D)
    requires v < Space && Pop(v) == k && v !in D && NextCode(i, low, hi, low', hi')
    ensures FamilyStored(Put(b, v, i), b0, k, low0, low', hi', hi0, D + {v})
  {
    var b' := Put(b, v, i);
    CompFacts(v);
    forall w: nat | w < Space && Pop(w) == k
      ensures if w in D + {v} then Stored(b', w) && Filled(b'.decode[w].value, low0, low', hi', hi0)
              else PairUntouched(b', b0, w)
    {
      CompFacts(w);
      assert Complement(w) != v && Complement(v) != w;
      if w in D {
        assert w != v;
        assert Filled(b.decode[w].value, low0, low, hi, hi0);
      }
    }
  }

  lemma OthersPut(b: Book, b0: Book, k: nat, v: nat, i: nat)
    requires Shaped(b) && Shaped(b0) && k <= Width && i < TableSize
    requires OthersKept(b, b0, k)
    requires v < Space && Pop(v) == k
    ensures OthersKept(Put(b, v, i), b0, k)
  {
    CompFacts(v);
    var b' := Put(b, v, i);
    forall w: nat | w < Space && Pop(w) != k && Pop(w) != Width - k
      ensures Untouched(b', b0, w)
    {
      assert w != v && w != Complement(v);
    }
  }

  lemma CodesPut(b: Book, k: nat, low0: nat, low: int, hi: int, hi0: nat, D: set<nat>,
                 v: nat, i: nat, low': int, hi': int)
    requires Shaped(b) && k <= Width && i < TableSize
    requires CodesFilled(b, k, low0, low, hi, hi0, D)
    requires v < Space && Pop(v) == k && v !in D && NextCode(i, low, hi, low', hi')
    ensures CodesFilled(Put(b, v, i), k, low0, low', hi', hi0, D + {v})
  {
    var b' := Put(b, v, i);
    CompFacts(v);
    forall j: nat | j < TableSize && Filled(j, low0, low', hi', hi0)
      ensures b'.encode[j] < Space && Pop(b'.encode[j]) == k && b'.encode[j] in D + {v} &&
              b'.decode[b'.encode[j]] == Some(j)
    {
      if j != i {
        var w := b.encode[j];
        CompFacts(w);
        assert w != v && w != Complement(v);
      }
    }
  }

  /** Storing a new k-bit character under the next free codeword keeps the build state. */
  lemma StoreStep(b: Book, b0: Book, k: nat, low0: nat, low: int, hi: int, hi0: nat, D: set<nat>,
                  v: nat, i: nat, low': int, hi': int)
    requires Stocked(b, b0, k, low0, low, hi, hi0, D) && 0 <= i < TableSize
    requires v < Space && Pop(v) == k && v !in D && NextCode(i, low, hi, low', hi')
    ensures Stocked(Put(b, v, i), b0, k, low0, low', hi', hi0, D + {v})
  {
    FamilyPut(b, b0, k, low0, low, hi, hi0, D, v, i, low', hi');
    OthersPut(b, b0, k, v, i);
    CodesPut(b, k, low0, low, hi, hi0, D, v, i, low', hi');
    var b' := Put(b, v, i);
    assert CodesKept(b', b0, low0, low', hi', hi0);
  }

  // ----- the scan over all 13-bit characters -----

  /** The k-bit characters the scan has stored once it has passed fwd:
      those that are, or whose reversal is, below fwd. */
  ghost function DoneBelow(k: nat, fwd: nat): set<nat>
  {
    set v: nat | v < Space && Pop(v) == k && Min(v, Rev(v)) < fwd
  }

  ghost function SmallerBelow(k: nat, f: nat): set<nat>
  {
    set v: nat | v < f && v < Space && Pop(v) == k && v < Rev(v)
  }

  ghost function PalindromesBelow(k: nat, f: nat): set<nat>
  {
    set v: nat | v < f && v < Space && Pop(v) == k && v == Rev(v)
  }

  /** The builder's loop invariant after scanning the characters below fwd,
      starting from tables b0, for the family of k-bit characters whose
      codewords run from low0 to hi0. */
  ghost predicate Partial(b: Book, b0: Book, k: nat, low0: nat, low: int, hi: int, hi0: nat, fwd: nat)
  {
    fwd <= Space &&
    Stocked(b, b0, k, low0, low, hi, hi0, DoneBelow(k, fwd)) &&
    low == low0 + 2 * |SmallerBelow(k, fwd)| && hi == hi0 - |PalindromesBelow(k, fwd)|
  }

  lemma Budget(k: nat, f: nat, g: nat)
    ensures 2 * |SmallerBelow(k, f)| + |PalindromesBelow(k, g)| <= |Family(k)|
  {
    SubsetSize(SmallerBelow(k, f), Smaller(k));
    SubsetSize(PalindromesBelow(k, g), Palindromes(k));
    FamilySplit(k);
  }

  /** Passing a character that is outside the family, or whose reversal came
      first, stores nothing. */
  lemma SkipStep(b: Book, b0: Book, k: nat, low0: nat, low: int, hi: int, hi0: nat, fwd: nat)
    requires Partial(b, b0, k, low0, low, hi, hi0, fwd) && fwd < Space
    requires Pop(fwd) != k || Rev(fwd) < fwd
    ensures Partial(b, b0, k, low0, low, hi, hi0, fwd + 1)
  {
    ScanSkip(k, fwd);
  }

  /** A palindrome takes the next codeword from the top. */
  lemma PalStep(b: Book, b0: Book, k: nat, low0: nat, low: int, hi: int, hi0: nat, fwd: nat)
    requires Partial(b, b0, k, low0, low, hi, hi0, fwd) && fwd < Space
    requires Pop(fwd) == k && Rev(fwd) == fwd
    requires hi0 - low0 + 1 == |Family(k)|
    ensures 0 <= low <= hi
    ensures Partial(Put(b, fwd, hi), b0, k, low0, low, hi - 1, hi0, fwd + 1)
  {
    var D := DoneBelow(k, fwd);
    ScanPalindrome(k, fwd);
    Budget(k, fwd, fwd + 1);
    StoreStep(b, b0, k, low0, low, hi, hi0, D, fwd, hi, low, hi - 1);
    PartialFrom(Put(b, fwd, hi), b0, k, low0, low, hi - 1, hi0, D + {fwd}, fwd + 1);
  }

  /** A character below its reversal takes the next two codewords from the
      bottom, followed by its reversal. */
  lemma PairStep(b: Book, b0: Book, k: nat, low0: nat, low: int, hi: int, hi0: nat, fwd: nat)
    requires Partial(b, b0, k, low0, low, hi, hi0, fwd) && fwd < Space
    requires Pop(fwd) == k && fwd < Rev(fwd)
    requires hi0 - low0 + 1 == |Family(k)|
    ensures 0 <= low && low + 1 <= hi && Rev(fwd) < Space
    ensures Partial(Put(Put(b, fwd, low), Rev(fwd), low + 1), b0, k, low0, low + 2, hi, hi0, fwd + 1)
  {
    var D := DoneBelow(k, fwd);
    var r := Rev(fwd);
    ScanPair(k, fwd);
    Budget(k, fwd + 1, fwd);
    StorePair(b, b0, k, low0, low, hi, hi0, D, fwd, r);
    PartialFrom(Put(Put(b, fwd, low), r, low + 1), b0, k, low0, low + 2, hi, hi0, D + {fwd} + {r}, fwd + 1);
  }

  lemma PartialFrom(b: Book, b0: Book, k: nat, low0: nat, low: int, hi: int, hi0: nat, D: set<nat>, fwd: nat)
    requires Stocked(b, b0, k, low0, low, hi, hi0, D) && fwd <= Space && D == DoneBelow(k, fwd)
    requires low == low0 + 2 * |SmallerBelow(k, fwd)| && hi == hi0 - |PalindromesBelow(k, fwd)|
    ensures Partial(b, b0, k, low0, low, hi, hi0, fwd)
  {
  }

  lemma StorePair(b: Book, b0: Book, k: nat, low0: nat, low: int, hi: int, hi0: nat, D: set<nat>, v: nat, r: nat)
    requires Stocked(b, b0, k, low0, low, hi, hi0, D) && 0 <= low && low + 1 <= hi
    requires v < Space && Pop(v) == k && v !in D
    requires r < Space && Pop(r) == k && r !in D + {v}
    ensures Stocked(Put(Put(b, v, low), r, low + 1), b0, k, low0, low + 2, hi, hi0, D + {v} + {r})
  {
    StoreStep(b, b0, k, low0, low, hi, hi0, D, v, low, low + 1, hi);
    StoreStep(Put(b, v, low), b0, k, low0, low + 1, hi, hi0, D + {v}, r, low + 1, low + 2, hi);
  }

  lemma ScanSkip(k: nat, fwd: nat)
    requires fwd < Space && (Pop(fwd) != k || Rev(fwd) < fwd)
    ensures DoneBelow(k, fwd + 1) == DoneBelow(k, fwd)
    ensures SmallerBelow(k, fwd + 1) == SmallerBelow(k, fwd)
    ensures PalindromesBelow(k, fwd + 1) == PalindromesBelow(k, fwd)
  {
    DoneSkip(k, fwd);
    BelowUnchanged(k, fwd);
  }

  lemma DoneSkip(k: nat, fwd: nat)
    requires fwd < Space && (Pop(fwd) != k || Rev(fwd) < fwd)
    ensures DoneBelow(k, fwd + 1) == DoneBelow(k, fwd)
  {
    RevFacts(fwd);
    forall v | v in DoneBelow(k, fwd + 1) ensures v in DoneBelow(k, fwd) {
      RevFacts(v);
      if v == fwd {
        assert Rev(fwd) < fwd;
      } else if Rev(v) == fwd {
        assert Rev(fwd) == v && Pop(fwd) == k;
        assert v < fwd;
      }
    }
  }

  /** Passing a character outside the family, or one that is not the smaller
      of a reversal pair nor a palindrome, adds nothing to either count. */
  lemma BelowUnchanged(k: nat, fwd: nat)
    requires Pop(fwd) != k || Rev(fwd) < fwd
    ensures SmallerBelow(k, fwd + 1) == SmallerBelow(k, fwd)
    ensures PalindromesBelow(k, fwd + 1) == PalindromesBelow(k, fwd)
  {
    forall v | v in SmallerBelow(k, fwd + 1) ensures v in SmallerBelow(k, fwd) {
      assert v != fwd;
    }
    forall v | v in PalindromesBelow(k, fwd + 1) ensures v in PalindromesBelow(k, fwd) {
      assert v != fwd;
    }
  }

  lemma ScanPalindrome(k: nat, fwd: nat)
    requires fwd < Space && Pop(fwd) == k && Rev(fwd) == fwd
    ensures DoneBelow(k, fwd + 1) == DoneBelow(k, fwd) + {fwd}
    ensures fwd !in DoneBelow(k, fwd)
    ensures SmallerBelow(k, fwd + 1) == SmallerBelow(k, fwd)
    ensures |PalindromesBelow(k, fwd + 1)| == |PalindromesBelow(k, fwd)| + 1
  {
    DonePalindrome(k, fwd);
    BelowPalindrome(k, fwd);
  }

  lemma DonePalindrome(k: nat, fwd: nat)
    requires fwd < Space && Pop(fwd) == k && Rev(fwd) == fwd
    ensures DoneBelow(k, fwd + 1) == DoneBelow(k, fwd) + {fwd}
    ensures fwd !in DoneBelow(k, fwd)
  {
    forall v | v in DoneBelow(k, fwd + 1) ensures v in DoneBelow(k, fwd) + {fwd} {
      RevFacts(v);
      if Rev(v) == fwd {
        assert v == fwd;
      }
    }
  }

  lemma BelowPalindrome(k: nat, fwd: nat)
    requires fwd < Space && Pop(fwd) == k && Rev(fwd) == fwd
    ensures SmallerBelow(k, fwd + 1) == SmallerBelow(k, fwd)
    ensures PalindromesBelow(k, fwd + 1) == PalindromesBelow(k, fwd) + {fwd}
    ensures |PalindromesBelow(k, fwd + 1)| == |PalindromesBelow(k, fwd)| + 1
  {
    assert fwd !in PalindromesBelow(k, fwd);
  }

  lemma ScanPair(k: nat, fwd: nat)
    requires fwd < Space && Pop(fwd) == k && fwd < Rev(fwd)
    ensures Rev(fwd) < Space && Pop(Rev(fwd)) == k
    ensures DoneBelow(k, fwd + 1) == DoneBelow(k, fwd) + {fwd} + {Rev(fwd)}
    ensures fwd !in DoneBelow(k, fwd) && Rev(fwd) !in DoneBelow(k, fwd) + {fwd}
    ensures |SmallerBelow(k, fwd + 1)| == |SmallerBelow(k, fwd)| + 1
    ensures PalindromesBelow(k, fwd + 1) == PalindromesBelow(k, fwd)
  {
    RevFacts(fwd);
    DonePair(k, fwd);
    BelowPair(k, fwd);
  }

  lemma DonePair(k: nat, fwd: nat)
    requires fwd < Space && Pop(fwd) == k && fwd < Rev(fwd)
    ensures DoneBelow(k, fwd + 1) == DoneBelow(k, fwd) + {fwd} + {Rev(fwd)}
    ensures fwd !in DoneBelow(k, fwd) && Rev(fwd) !in DoneBelow(k, fwd) + {fwd}
  {
    var r := Rev(fwd);
    RevFacts(fwd);
    forall v | v in DoneBelow(k, fwd + 1) ensures v in DoneBelow(k, fwd) + {fwd} + {r} {
      RevFacts(v);
      if Min(v, Rev(v)) == fwd && v != fwd {
        assert Rev(v) == fwd;
      }
    }
    assert Min(r, Rev(r)) == fwd;
  }

  lemma BelowPair(k: nat, fwd: nat)
    requires fwd < Space && Pop(fwd) == k && fwd < Rev(fwd)
    ensures SmallerBelow(k, fwd + 1) == SmallerBelow(k, fwd) + {fwd}
    ensures |SmallerBelow(k, fwd + 1)| == |SmallerBelow(k, fwd)| + 1
    ensures PalindromesBelow(k, fwd + 1) == PalindromesBelow(k, fwd)
  {
    var below := SmallerBelow(k, fwd);
    assert fwd !in below;
    forall v | v in SmallerBelow(k, fwd + 1) ensures v in below + {fwd} {
      if v != fwd {
        assert v < fwd && v < Space && Pop(v) == k && v < Rev(v);
        assert v in below;
      }
    }
    assert SmallerBelow(k, fwd + 1) == below + {fwd};
    assert |below + {fwd}| == |below| + 1;
    forall v | v in PalindromesBelow(k, fwd + 1) ensures v in PalindromesBelow(k, fwd) {
      assert v != fwd;
    }
  }

  /** What one build call leaves: every codeword from low0 to hi0 holds a
      k-bit character, every k-bit character is stored under one of them,
      and nothing outside the family and its complements has changed. */
  ghost predicate Built(b: Book, b0: Book, k: nat, low0: nat, hi0: nat)
  {
    Shaped(b) && Shaped(b0) && k <= Width && hi0 < TableSize &&
    (forall v: nat | v < Space && Pop(v) == k ::
      Stored(b, v) && low0 <= b.decode[v].value <= hi0) &&
    OthersKept(b, b0, k) &&
    (forall i: nat | low0 <= i <= hi0 ::
      b.encode[i] < Space && Pop(b.encode[i]) == k && b.decode[b.encode[i]] == Some(i)) &&
    (forall i: nat | i < TableSize && !(low0 <= i <= hi0) :: b.encode[i] == b0.encode[i])
  }

  lemma ScanStart(b: Book, k: nat, low0: nat, hi0: nat)
    requires Shaped(b) && k <= Width && hi0 < TableSize
    ensures Partial(b, b, k, low0, low0, hi0, hi0, 0)
  {
    assert DoneBelow(k, 0) == {};
    assert SmallerBelow(k, 0) == {};
    assert PalindromesBelow(k, 0) == {};
  }

  /** Once every character has been scanned the two counters have met, so the
      whole codeword range is filled. */
  lemma ScanEnd(b: Book, b0: Book, k: nat, low0: nat, low: int, hi: int, hi0: nat)
    requires Partial(b, b0, k, low0, low, hi, hi0, Space)
    requires hi0 - low0 + 1 == |Family(k)|
    ensures low == hi + 1
    ensures Built(b, b0, k, low0, hi0)
  {
    assert SmallerBelow(k, Space) == Smaller(k);
    assert PalindromesBelow(k, Space) == Palindromes(k);
    FamilySplit(k);
    forall v: nat | v < Space && Pop(v) == k
      ensures v in DoneBelow(k, Space)
    {
    }
  }

  /** The tables before any build: nothing decodes. */
  ghost predicate Blank(b: Book)
  {
    Shaped(b) && forall v: nat | v < Space :: b.decode[v] == None
  }

  /** The finished tables, as the decoder relies on them. */
  ghost predicate Complete(b: Book)
  {
    Shaped(b) &&
    (forall v: nat | v < Space ::
      b.decode[v].Some? <==> (Pop(v) == 2 || Pop(v) == 5 || Pop(v) == 8 || Pop(v) == 11)) &&
    (forall v: nat | v < Space :: b.decode[Complement(v)] == b.decode[v]) &&
    (forall v: nat | v < Space && (Pop(v) == 5 || Pop(v) == 2) ::
      b.fcs[v] == 0 && b.fcs[Complement(v)] == 1) &&
    (forall v: nat | v < Space && b.decode[v].Some? ::
      b.decode[v].value < TableSize &&
      (b.encode[b.decode[v].value] == v || b.encode[b.decode[v].value] == Complement(v))) &&
    (forall i: nat | i < TableSize ::
      b.encode[i] < Space && b.decode[b.encode[i]] == Some(i) &&
      Pop(b.encode[i]) == (if i < FiveCount then 5 else 2))
  }

  /** The two build calls, 5-of-13 characters into codewords 0..1286 and
      2-of-13 characters into 1287..1364, starting from blank tables, leave
      complete tables. */
  lemma BuildsComplete(b0: Book, b1: Book, b2: Book)
    requires Blank(b0)
    requires Built(b1, b0, 5, 0, FiveCount - 1)
    requires Built(b2, b1, 2, FiveCount, TableSize - 1)
    ensures Complete(b2)
  {
    forall v: nat | v < Space
      ensures b2.decode[v].Some? <==> (Pop(v) == 2 || Pop(v) == 5 || Pop(v) == 8 || Pop(v) == 11)
      ensures b2.decode[Complement(v)] == b2.decode[v]
      ensures b2.decode[v].Some? ==>
        b2.decode[v].value < TableSize &&
        (b2.encode[b2.decode[v].value] == v || b2.encode[b2.decode[v].value] == Complement(v))
      ensures Pop(v) == 5 || Pop(v) == 2 ==> b2.fcs[v] == 0 && b2.fcs[Complement(v)] == 1
    {
      CompleteAt(b0, b1, b2, v);
    }
    forall i: nat | i < TableSize
      ensures b2.encode[i] < Space && b2.decode[b2.encode[i]] == Some(i) &&
              Pop(b2.encode[i]) == (if i < FiveCount then 5 else 2)
    {
      if i < FiveCount {
        var w := b1.encode[i];
        assert b2.encode[i] == w;
        CompFacts(w);
        assert Untouched(b2, b1, w);
      }
    }
  }

  lemma CompleteAt(b0: Book, b1: Book, b2: Book, v: nat)
    requires Blank(b0)
    requires Built(b1, b0, 5, 0, FiveCount - 1)
    requires Built(b2, b1, 2, FiveCount, TableSize - 1)
    requires v < Space
    ensures b2.decode[v].Some? <==> (Pop(v) == 2 || Pop(v) == 5 || Pop(v) == 8 || Pop(v) == 11)
    ensures b2.decode[Complement(v)] == b2.decode[v]
    ensures b2.decode[v].Some? ==>
      b2.decode[v].value < TableSize &&
      (b2.encode[b2.decode[v].value] == v || b2.encode[b2.decode[v].value] == Complement(v))
    ensures Pop(v) == 5 || Pop(v) == 2 ==> b2.fcs[v] == 0 && b2.fcs[Complement(v)] == 1
  {
    var c := Complement(v);
    CompFacts(v);
    assert Complement(c) == v;
    var p := Pop(v);
    if p == 5 || p == 8 {
      var u := if p == 5 then v else c;
      CompFacts(u);
      assert Stored(b1, u);
      assert Untouched(b2, b1, u) && Untouched(b2, b1, Complement(u));
      var i := b1.decode[u].value;
      assert i < FiveCount;
      assert b2.encode[i] == b1.encode[i];
    } else if p == 2 || p == 11 {
      var u := if p == 2 then v else c;
      CompFacts(u);
      assert Stored(b2, u);
    } else {
      assert Untouched(b2, b1, v) && Untouched(b1, b0, v);
      assert Untouched(b2, b1, c) && Untouched(b1, b0, c);
    }
  }

  /** The builder's inner loop: the population count and the 13-bit
      reversal of fwd, one bit at a time from the low end. */
  method CountAndReverse(fwd: nat) returns (pop: nat, rev: nat)
    ensures pop == Pop(fwd) && rev == Rev(fwd)
  {
    var tmp: nat, n: nat := fwd, Width;
    pop, rev := 0, 0;
    while n > 0
      invariant pop + PopN(tmp, n) == Pop(fwd)
      invariant RevAcc(tmp, rev, n) == Rev(fwd)
    {
      pop := pop + tmp % 2;      // tmp & 1
      rev := 2 * rev + tmp % 2;  // (rev << 1) | (tmp & 1)
      tmp, n := tmp / 2, n - 1;
    }
  }

  /** The three lookup tables, filled in place by the builder. */
  class Tables {
    const encode: array<nat>
    const decode: array<Option<nat>>
    const fcs: array<nat>

    ghost predicate Valid()
      reads this
    {
      encode.Length == TableSize && decode.Length == Space && fcs.Length == Space && encode != fcs
    }

    ghost function View(): Book
      reads this, encode, decode, fcs
    {
      Book(encode[..], decode[..], fcs[..])
    }

    /** Allocate blank tables and run the two build calls. */
    constructor()
      ensures Valid() && Complete(View())
    {
      encode := new nat[TableSize](_ => 0);
      decode := new Option<nat>[Space](_ => None);
      fcs := new nat[Space](_ => 0);
      new;
      ghost var b0 := View();
      FamilySize(5);
      FamilySize(2);
      Build(5, 0, FiveCount - 1);
      ghost var b1 := View();
      Build(2, FiveCount, TableSize - 1);
      BuildsComplete(b0, b1, View());
    }

    /** Make character v encode codeword i, and v and its complement decode to i. */
    method Store(v: nat, i: nat)
      requires Valid() && v < Space && i < TableSize
      modifies encode, decode, fcs
      ensures View() == Put(old(View()), v, i)
    {
      var c := Xor(v, AllOnes);
      CompFacts(v);
      encode[i] := v;
      decode[v] := Some(i);
      decode[c] := Some(i);
      fcs[v] := 0;
      fcs[c] := 1;
    }

    /** Scan every 13-bit character; store those with `bits` set bits,
        palindromes from hi0 downwards and reversal pairs from low0 upwards. */
    method Build(bits: nat, low0: nat, hi0: nat)
      requires Valid() && bits <= Width && hi0 < TableSize
      requires hi0 - low0 + 1 == |Family(bits)|
      modifies encode, decode, fcs
      ensures Built(View(), old(View()), bits, low0, hi0)
    {
      ghost var b0 := View();
      var low: int, hi: int := low0, hi0;
      ScanStart(b0, bits, low0, hi0);
      for fwd := 0 to Space
        invariant Partial(View(), b0, bits, low0, low, hi, hi0, fwd)
      {
        var pop, rev := CountAndReverse(fwd);
        if pop != bits {
          SkipStep(View(), b0, bits, low0, low, hi, hi0, fwd);
          continue;
        }
        if fwd == rev {
          PalStep(View(), b0, bits, low0, low, hi, hi0, fwd);
          Store(fwd, hi);
          hi := hi - 1;
        } else if fwd < rev {
          PairStep(View(), b0, bits, low0, low, hi, hi0, fwd);
          Store(fwd, low);
          low := low + 1;
          Store(rev, low);
          low := low + 1;
        } else {
          SkipStep(View(), b0, bits, low0, low, hi, hi0, fwd);
        }
      }
      ScanEnd(View(), b0, bits, low0, low, hi, hi0);
    }
  }
}

/** The 13-bit patterns behind the codeword tables: population count, bit
    reversal and complement, as the table builder computes them, and the counts
    of patterns with a given number of set bits. */
module BitPatterns {
  import opened Bits

  /** Codeword characters are 13 bits wide, so there are 8192 patterns. */
  const Width: nat := 13
  const Space: nat := 8192
  const AllOnes: nat := 8191

  /** The low n bits of v, least significant first. */
  function BitSeq(v: nat, n: nat): (s: seq<nat>)
    ensures |s| == n
  {
    if n == 0 then [] else [v % 2] + BitSeq(v / 2, n - 1)
  }

  /** The number whose bits, least significant first, are s. */
  function FromBits(s: seq<nat>): nat
  {
    if s == [] then 0 else s[0] + 2 * FromBits(s[1..])
  }

  function Sum(s: seq<nat>): nat
  {
    if s == [] then 0 else s[0] + Sum(s[1..])
  }

  function Reverse(s: seq<nat>): (r: seq<nat>)
    ensures |r| == |s|
  {
    if s == [] then [] else Reverse(s[1..]) + [s[0]]
  }

  function Flip(s: seq<nat>): (r: seq<nat>)
    ensures |r| == |s|
  {
    if s == [] then [] else [if s[0] == 0 then 1 else 0] + Flip(s[1..])
  }

  predicate IsBinary(s: seq<nat>)
  {
    forall i :: 0 <= i < |s| ==> s[i] <= 1
  }

  /** The builder's population count: `pop += tmp & 1; tmp >>= 1`, n times. */
  function PopN(v: nat, n: nat): nat
  {
    if n == 0 then 0 else v % 2 + PopN(v / 2, n - 1)
  }

  /** The builder's reversal loop: `rev = (rev << 1) | (tmp & 1); tmp >>= 1`, n times. */
  function RevAcc(tmp: nat, acc: nat, n: nat): nat
    decreases n
  {
    if n == 0 then acc else RevAcc(tmp / 2, 2 * acc + tmp % 2, n - 1)
  }

  function Pop(v: nat): nat { PopN(v, Width) }

  function Rev(v: nat): nat { RevAcc(v, 0, Width) }

  /** `v ^ 8191`, the pattern with every bar state inverted. */
  function Comp(v: nat): nat { Xor(v, AllOnes) }

  lemma Space13()
    ensures Pow2(Width) == Space
  {
  }

  // ----- facts about bit sequences -----

  lemma {:induction false} BitSeqBinary(v: nat, n: nat)
    ensures IsBinary(BitSeq(v, n))
    decreases n
  {
    if n > 0 {
      BitSeqBinary(v / 2, n - 1);
    }
  }

  lemma {:induction false} PopIsSum(v: nat, n: nat)
    ensures PopN(v, n) == Sum(BitSeq(v, n))
    decreases n
  {
    if n > 0 {
      PopIsSum(v / 2, n - 1);
      assert BitSeq(v, n)[1..] == BitSeq(v / 2, n - 1);
    }
  }

  lemma {:induction false} FromBitsBitSeq(v: nat, n: nat)
    requires v < Pow2(n)
    ensures FromBits(BitSeq(v, n)) == v
    decreases n
  {
    if n > 0 {
      FromBitsBitSeq(v / 2, n - 1);
      assert BitSeq(v, n)[1..] == BitSeq(v / 2, n - 1);
    }
  }

  lemma {:induction false} BitSeqFromBits(s: seq<nat>)
    requires IsBinary(s)
    ensures BitSeq(FromBits(s), |s|) == s
    decreases |s|
  {
    if s != [] {
      BitSeqFromBits(s[1..]);
      assert FromBits(s) % 2 == s[0];
      assert FromBits(s) / 2 == FromBits(s[1..]);
    }
  }

  lemma {:induction false} FromBitsBound(s: seq<nat>)
    requires IsBinary(s)
    ensures FromBits(s) < Pow2(|s|)
    decreases |s|
  {
    if s != [] {
      FromBitsBound(s[1..]);
    }
  }

  lemma {:induction false} FromBitsAppend(s: seq<nat>, b: nat)
    ensures FromBits(s + [b]) == FromBits(s) + b * Pow2(|s|)
    decreases |s|
  {
    if s == [] {
      assert [] + [b] == [b];
      assert [b][1..] == [];
    } else {
      var p := Pow2(|s| - 1);
      assert (s + [b])[1..] == s[1..] + [b];
      FromBitsAppend(s[1..], b);
      assert FromBits(s + [b]) == s[0] + 2 * (FromBits(s[1..]) + b * p);
      assert Pow2(|s|) == 2 * p;
      MulSplit(0, b, p);
    }
  }

  lemma {:induction false} SumAppend(s: seq<nat>, b: nat)
    ensures Sum(s + [b]) == Sum(s) + b
    decreases |s|
  {
    if s == [] {
      assert [] + [b] == [b];
      assert [b][1..] == [];
    } else {
      assert (s + [b])[1..] == s[1..] + [b];
      SumAppend(s[1..], b);
    }
  }

  lemma {:induction false} SumReverse(s: seq<nat>)
    ensures Sum(Reverse(s)) == Sum(s)
    decreases |s|
  {
    if s != [] {
      SumReverse(s[1..]);
      SumAppend(Reverse(s[1..]), s[0]);
    }
  }

  lemma {:induction false} ReverseIndex(s: seq<nat>, i: nat)
    requires i < |s|
    ensures Reverse(s)[i] == s[|s| - 1 - i]
    decreases |s|
  {
    if i < |s| - 1 {
      ReverseIndex(s[1..], i);
    }
  }

  lemma ReverseReverse(s: seq<nat>)
    ensures Reverse(Reverse(s)) == s
  {
    forall i | 0 <= i < |s| ensures Reverse(Reverse(s))[i] == s[i] {
      ReverseIndex(Reverse(s), i);
      ReverseIndex(s, |s| - 1 - i);
    }
  }

  lemma ReverseBinary(s: seq<nat>)
    requires IsBinary(s)
    ensures IsBinary(Reverse(s))
  {
    forall i | 0 <= i < |s| ensures Reverse(s)[i] <= 1 {
      ReverseIndex(s, i);
    }
  }

  lemma {:induction false} SumFlip(s: seq<nat>)
    requires IsBinary(s)
    ensures Sum(Flip(s)) == |s| - Sum(s) && Sum(s) <= |s|
    decreases |s|
  {
    if s != [] {
      SumFlip(s[1..]);
    }
  }

  lemma {:induction false} BitSeqComplement(v: nat, n: nat)
    requires v < Pow2(n)
    ensures BitSeq(Pow2(n) - 1 - v, n) == Flip(BitSeq(v, n))
    decreases n
  {
    if n > 0 {
      var p := Pow2(n - 1);
      assert Pow2(n) == 2 * p;
      assert (2 * p - 1 - v) % 2 == 1 - v % 2;
      assert (2 * p - 1 - v) / 2 == p - 1 - v / 2;
      BitSeqComplement(v / 2, n - 1);
    }
  }

  // ----- the three operations on 13-bit patterns -----

  lemma MulSplit(acc: nat, b: nat, p: nat)
    ensures (2 * acc + b) * p == acc * (2 * p) + b * p
  {
  }

  lemma {:induction false} RevAccValue(tmp: nat, acc: nat, n: nat)
    ensures RevAcc(tmp, acc, n) == acc * Pow2(n) + FromBits(Reverse(BitSeq(tmp, n)))
    decreases n
  {
    if n > 0 {
      var b, p := tmp % 2, Pow2(n - 1);
      var s := BitSeq(tmp, n);
      RevAccValue(tmp / 2, 2 * acc + b, n - 1);
      var rest := Reverse(BitSeq(tmp / 2, n - 1));
      assert s[0] == b && s[1..] == BitSeq(tmp / 2, n - 1);
      assert Reverse(s) == rest + [b];
      FromBitsAppend(rest, b);
      assert FromBits(Reverse(s)) == FromBits(rest) + b * p;
      assert RevAcc(tmp, acc, n) == (2 * acc + b) * p + FromBits(rest);
      assert Pow2(n) == 2 * p;
      MulSplit(acc, b, p);
    }
  }

  lemma RevIsReverse(v: nat)
    ensures Rev(v) == FromBits(Reverse(BitSeq(v, Width)))
  {
    RevAccValue(v, 0, Width);
    assert Rev(v) == RevAcc(v, 0, Width);
    assert 0 * Pow2(Width) == 0;
  }

  /** Reversal stays within 13 bits, keeps the population count and undoes itself. */
  lemma RevFacts(v: nat)
    requires v < Space
    ensures Rev(v) < Space
    ensures Pop(Rev(v)) == Pop(v)
    ensures Rev(Rev(v)) == v
  {
    var b := BitSeq(v, Width);
    BitSeqBinary(v, Width);
    ReverseBinary(b);
    RevIsReverse(v);
    FromBitsBound(Reverse(b));
    var r := Rev(v);
    BitSeqFromBits(Reverse(b));
    assert BitSeq(r, Width) == Reverse(b);
    PopIsSum(r, Width);
    PopIsSum(v, Width);
    SumReverse(b);
    RevIsReverse(r);
    ReverseReverse(b);
    FromBitsBitSeq(v, Width);
  }

  /** The complement is `8191 - v` and holds the other 13 - pop bits. */
  lemma CompFacts(v: nat)
    requires v < Space
    ensures Comp(v) == AllOnes - v
    ensures Pop(AllOnes - v) == Width - Pop(v)
    ensures Pop(v) <= Width
  {
    Space13();
    XorAllOnes(v, Width);
    assert Pow2(Width) - 1 - v == AllOnes - v;
    BitSeqComplement(v, Width);
    BitSeqBinary(v, Width);
    SumFlip(BitSeq(v, Width));
    PopIsSum(v, Width);
    PopIsSum(AllOnes - v, Width);
  }
}

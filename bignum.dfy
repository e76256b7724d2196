/** The decoder's multiple-precision numbers: a list of 11-bit limbs, most
    significant limb first, updated in place by `add`, `muladd` and `divmod`. */
module BigNum {
  /** 2048 (one 11-bit limb) to the power k. */
  function Power(k: nat): (r: nat)
    ensures r >= 1
  {
    if k == 0 then 1 else 2048 * Power(k - 1)
  }

  /** The number the limbs stand for, most significant limb first. */
  function Value(s: seq<nat>): nat
  {
    if s == [] then 0 else Value(s[..|s| - 1]) * 2048 + s[|s| - 1]
  }

  /** Every limb fits in 11 bits. */
  predicate Limbs(s: seq<nat>)
  {
    forall i :: 0 <= i < |s| ==> s[i] < 2048
  }

  lemma {:induction false} ValueBound(s: seq<nat>)
    requires Limbs(s)
    ensures Value(s) < Power(|s|)
    decreases |s|
  {
    if s != [] {
      var init := s[..|s| - 1];
      ValueBound(init);
      assert Value(init) + 1 <= Power(|init|);
      MulLe(Value(init) + 1, Power(|init|), 2048);
    }
  }

  lemma MulLe(a: nat, b: nat, c: nat)
    requires a <= b
    ensures a * c <= b * c
  {
  }

  /** Limbs put side by side: the high part is shifted by the low part's width. */
  lemma {:induction false} ValueConcat(p: seq<nat>, q: seq<nat>)
    ensures Value(p + q) == Value(p) * Power(|q|) + Value(q)
    decreases |q|
  {
    if q == [] {
      assert p + q == p;
    } else {
      var q0, last := q[..|q| - 1], q[|q| - 1];
      assert (p + q)[..|p + q| - 1] == p + q0 && (p + q)[|p + q| - 1] == last;
      assert Value(p + q) == Value(p + q0) * 2048 + last;
      assert Value(q) == Value(q0) * 2048 + last;
      assert Power(|q|) == 2048 * Power(|q0|);
      ValueConcat(p, q0);
      ConcatAlgebra(Value(p + q), Value(p + q0), Value(p), Power(|q0|), Power(|q|), Value(q0), Value(q), last);
    }
  }

  lemma ConcatAlgebra(vpq: int, vpq0: int, vp: int, pw0: int, pw: int, vq0: int, vq: int, last: int)
    requires vpq == vpq0 * 2048 + last && vpq0 == vp * pw0 + vq0
    requires vq == vq0 * 2048 + last && pw == 2048 * pw0
    ensures vpq == vp * pw + vq
  {
    MulAssoc(vp, pw0, 2048);
  }

  lemma MulAssoc(a: int, b: int, c: int)
    ensures (a * b) * c == a * (b * c)
  {
  }

  /** The leading limb weighs Power(|rest|). */
  lemma ValueCons(d: nat, rest: seq<nat>)
    ensures Value([d] + rest) == d * Power(|rest|) + Value(rest)
  {
    assert [d][..0] == [];
    assert Value([d]) == d;
    ValueConcat([d], rest);
  }

  /** `0 <= r < m` and `t == r + c * m` make r the remainder of t. */
  lemma ModUnique(r: int, c: int, m: int, t: int)
    requires 0 <= r < m && t == r + c * m
    ensures r == t % m && c == t / m
  {
    var q, s := t / m, t % m;
    var k := c - q;
    MulSub(c, q, m);
    assert k * m == s - r;
    if k >= 1 {
      MulLe(1, k, m);
      assert false;
    } else if k <= -1 {
      MulLe(1, -k, m);
      MulNeg(k, m);
      assert false;
    }
  }

  lemma MulSub(a: int, b: int, c: int)
    ensures (a - b) * c == a * c - b * c
  {
  }

  lemma MulNeg(a: int, b: int)
    ensures (-a) * b == -(a * b)
  {
  }

  /** The state of `add` and `muladd` with limbs n.. done: the limbs below n are
      untouched, those from n on are in range, and together with the carry
      they hold m times the original low part plus a. */
  ghost predicate Pending(s: seq<nat>, s0: seq<nat>, n: nat, carry: int, m: int, a: int)
  {
    n <= |s| == |s0| && s[..n] == s0[..n] && (forall i :: n <= i < |s| ==> s[i] < 2048) &&
    Value(s[n..]) + carry * Power(|s| - n) == m * Value(s0[n..]) + a
  }

  /** One limb of `add` or `muladd`: x = limb * m + carry is split into the
      new limb x & 0x7ff and the new carry x >> 11. */
  lemma PendingStep(s: seq<nat>, s0: seq<nat>, n: nat, x: int, c0: int, c: int, m: int, a: int)
    requires 0 < n && Pending(s, s0, n, c0, m, a)
    requires x == s[n - 1] * m + c0 && c == x / 2048
    ensures Pending(s[n - 1 := x % 2048], s0, n - 1, c, m, a)
  {
    var s' := s[n - 1 := x % 2048];
    assert s[n - 1] == s[..n][n - 1] == s0[..n][n - 1] == s0[n - 1];
    assert s'[..n - 1] == s[..n][..n - 1] == s0[..n][..n - 1] == s0[..n - 1];
    MulAddStep(s, s0, n, x, c0, c, m, a);
  }

  /** `add`: add a (possibly negative) value, carrying from the least
      significant limb and stopping as soon as the carry is 0. Python's `>>`
      and `& 0x7ff` floor, as Dafny's `/` and `%` by a positive divisor do. */
  method Add(num: array<nat>, a: int)
    modifies num
    ensures Limbs(old(num[..])) ==> Limbs(num[..])
    ensures Limbs(old(num[..])) ==>
      Value(num[..]) == (Value(old(num[..])) + a) % Power(num.Length)
  {
    ghost var s0 := num[..];
    var carry := a;
    var n := num.Length;
    assert num[n..] == [] && s0[n..] == [];
    while n > 0 && carry != 0  // the loop breaks once add_val is 0
      invariant n <= num.Length
      invariant Pending(num[..], s0, n, carry, 1, a)
    {
      ghost var before, c0 := num[..], carry;
      var x := num[n - 1] + carry;
      carry := x / 2048;         // x >> 11
      num[n - 1] := x % 2048;    // x & 0x7ff
      PendingStep(before, s0, n, x, c0, carry, 1, a);
      assert num[..] == before[n - 1 := x % 2048];
      n := n - 1;
    }
    AddExit(s0, num[..], n, carry, a);
    if Limbs(s0) {
      DropCarry(num[..], carry, Value(s0) + a);
    }
  }

  /** Leaving `add`'s loop, by running out of carry or of limbs, the limbs
      plus the carry out of the top limb make the sum, and the limbs are in
      range if they were. */
  lemma AddExit(s0: seq<nat>, s: seq<nat>, n: nat, carry: int, a: int)
    requires Pending(s, s0, n, carry, 1, a) && (n == 0 || carry == 0)
    ensures Value(s) + carry * Power(|s|) == Value(s0) + a
    ensures Limbs(s0) ==> Limbs(s)
  {
    assert 1 * Value(s0[n..]) == Value(s0[n..]);
    if carry == 0 {
      UntouchedHigh(s0, s, n, a);
    } else {
      assert s[n..] == s && s0[n..] == s0;
    }
    if Limbs(s0) {
      LimbsJoin(s0, s, n);
    }
  }

  /** With every limb in range, dropping the carry out of the top limb
      leaves the sum modulo the width. */
  lemma DropCarry(s: seq<nat>, carry: int, t: int)
    requires Limbs(s) && Value(s) + carry * Power(|s|) == t
    ensures Value(s) == t % Power(|s|)
  {
    ValueBound(s);
    ModUnique(Value(s), carry, Power(|s|), t);
  }

  lemma LimbsJoin(s0: seq<nat>, s: seq<nat>, n: nat)
    requires n <= |s| == |s0| && Limbs(s0)
    requires s[..n] == s0[..n] && forall i :: n <= i < |s| ==> s[i] < 2048
    ensures Limbs(s)
  {
    forall i | 0 <= i < |s| ensures s[i] < 2048 {
      if i < n {
        assert s[i] == s[..n][i] == s0[..n][i] == s0[i];
      }
    }
  }

  /** Adding a to the low limbs only adds a to the whole number. */
  lemma UntouchedHigh(s0: seq<nat>, s: seq<nat>, n: nat, a: int)
    requires n <= |s| == |s0| && s[..n] == s0[..n]
    requires Value(s[n..]) + 0 * Power(|s| - n) == Value(s0[n..]) + a
    ensures Value(s) + 0 * Power(|s|) == Value(s0) + a
  {
    var hi, p := Value(s0[..n]), Power(|s| - n);
    assert Value(s) == hi * p + Value(s[n..]) by {
      assert s == s[..n] + s[n..];
      ValueConcat(s[..n], s[n..]);
    }
    assert Value(s0) == hi * p + Value(s0[n..]) by {
      assert s0 == s0[..n] + s0[n..];
      ValueConcat(s0[..n], s0[n..]);
    }
  }

  /** `muladd`: multiply by m and add a, from the least significant limb up;
      the carry out of the top limb is dropped. */
  method MulAdd(num: array<nat>, m: int, a: int)
    modifies num
    ensures Limbs(num[..])
    ensures Value(num[..]) == (m * Value(old(num[..])) + a) % Power(num.Length)
  {
    ghost var s0 := num[..];
    var carry := a;
    var n := num.Length;
    assert num[n..] == [] && s0[n..] == [];
    while n > 0
      invariant n <= num.Length
      invariant Pending(num[..], s0, n, carry, m, a)
    {
      ghost var before, c0 := num[..], carry;
      var x := num[n - 1] * m + carry;
      carry := x / 2048;         // x >> 11
      num[n - 1] := x % 2048;    // x & 0x7ff
      PendingStep(before, s0, n, x, c0, carry, m, a);
      assert num[..] == before[n - 1 := x % 2048];
      n := n - 1;
    }
    MulAddExit(s0, num[..], carry, m, a);
    DropCarry(num[..], carry, m * Value(s0) + a);
  }

  lemma MulAddExit(s0: seq<nat>, s: seq<nat>, carry: int, m: int, a: int)
    requires Pending(s, s0, 0, carry, m, a)
    ensures Limbs(s) && Value(s) + carry * Power(|s|) == m * Value(s0) + a
  {
    assert s[0..] == s && s0[0..] == s0;
  }

  /** One limb of `muladd`: the running identity extends to one more limb. */
  lemma MulAddStep(s: seq<nat>, s0: seq<nat>, n: nat, x: int, c0: int, c: int, m: int, a: int)
    requires 0 < n <= |s| == |s0| && s[n - 1] == s0[n - 1]
    requires x == s0[n - 1] * m + c0 && c == x / 2048
    requires Value(s[n..]) + c0 * Power(|s| - n) == m * Value(s0[n..]) + a
    ensures Value(s[n - 1 := x % 2048][n - 1..]) + c * Power(|s| - (n - 1)) == m * Value(s0[n - 1..]) + a
  {
    var rest, orest := s[n..], s0[n..];
    var p, pp := Power(|s| - n), Power(|s| - (n - 1));
    assert pp == 2048 * p;
    assert s[n - 1 := x % 2048][n - 1..] == [x % 2048] + rest;
    assert s0[n - 1..] == [s0[n - 1]] + orest;
    ValueCons(x % 2048, rest);
    ValueCons(s0[n - 1], orest);
    MulAddAlgebra(Value([x % 2048] + rest), Value([s0[n - 1]] + orest), Value(rest), Value(orest),
      x % 2048, s0[n - 1], x, c0, c, m, p, pp, a);
  }

  lemma MulAddAlgebra(v': int, v0: int, rest: int, orest: int, low: int, limb: int, x: int, c0: int, c: int, m: int,
                      p: int, pp: int, a: int)
    requires v' == low * p + rest && v0 == limb * p + orest
    requires x == limb * m + c0 && c == x / 2048 && low == x % 2048 && pp == 2048 * p
    requires rest + c0 * p == m * orest + a
    ensures v' + c * pp == m * v0 + a
  {
    assert x == c * 2048 + low;
    MulAssoc(c, 2048, p);
    assert (c * 2048 + low) * p == (c * 2048) * p + low * p;
    assert low * p + c * pp == x * p;
    assert x * p == (limb * m) * p + c0 * p;
    MulAssoc(limb, m, p);
  }

  /** The state of `divmod` with limbs ..n done: the limbs from n on are
      untouched, and the quotient limbs so far times d plus the remainder r
      give the original high part. */
  ghost predicate Dividing(s: seq<nat>, s0: seq<nat>, n: nat, r: int, d: int)
  {
    n <= |s| == |s0| && s[n..] == s0[n..] && 0 <= r < d &&
    Value(s0[..n]) == Value(s[..n]) * d + r &&
    (Limbs(s0) ==> Limbs(s[..n]))
  }

  /** `divmod`: divide by d from the most significant limb down, leaving the
      quotient in place and returning the remainder. */
  method DivMod(num: array<nat>, d: nat) returns (r: nat)
    requires d > 0
    modifies num
    ensures r < d
    ensures Value(old(num[..])) == Value(num[..]) * d + r
    ensures Value(num[..]) == Value(old(num[..])) / d && r == Value(old(num[..])) % d
    ensures Limbs(old(num[..])) ==> Limbs(num[..])
  {
    ghost var s0 := num[..];
    r := 0;
    var n := 0;
    assert num[..0] == [] && s0[..0] == [];
    while n < num.Length
      invariant n <= num.Length
      invariant Dividing(num[..], s0, n, r, d)
    {
      ghost var before, r0 := num[..], r;
      var x: nat := num[n] + r * 2048;   // num[n] + (mod << 11)
      var q: nat := x / d;
      num[n] := q;
      RemainderBound(x, q, d);
      r := x - q * d;
      DividingStep(before, s0, n, x, q, r0, r, d);
      assert num[..] == before[n := q];
      n := n + 1;
    }
    DivModExit(s0, num[..], r, d);
    ModUnique(r, Value(num[..]), d, Value(s0));
  }

  lemma DividingStep(s: seq<nat>, s0: seq<nat>, n: nat, x: int, q: nat, r0: int, r: int, d: int)
    requires n < |s| && Dividing(s, s0, n, r0, d)
    requires x == s[n] + r0 * 2048 && q == x / d && r == x - q * d
    ensures Dividing(s[n := q], s0, n + 1, r, d)
  {
    var s' := s[n := q];
    assert s[n] == s[n..][0] == s0[n..][0] == s0[n];
    assert s'[n + 1..] == s[n..][1..] == s0[n..][1..] == s0[n + 1..];
    assert s'[..n + 1] == s[..n] + [q];
    RemainderBound(x, q, d);
    DivStep(s0, s[..n], n, x, q, r0, r, d);
    if Limbs(s0) {
      QuotientLimb(s0[n], r0, x, q, d);
      assert Limbs(s[..n] + [q]);
    }
  }

  lemma DivModExit(s0: seq<nat>, s: seq<nat>, r: int, d: int)
    requires Dividing(s, s0, |s|, r, d)
    ensures Value(s0) == Value(s) * d + r && (Limbs(s0) ==> Limbs(s))
  {
    assert s[..|s|] == s && s0[..|s|] == s0;
  }

  /** One limb of `divmod`: the prefix identity extends to one more limb. */
  lemma DivStep(s0: seq<nat>, head: seq<nat>, n: nat, x: int, q: nat, r0: int, r: int, d: int)
    requires n < |s0| && Value(s0[..n]) == Value(head) * d + r0
    requires x == s0[n] + r0 * 2048 && r == x - q * d
    ensures Value(s0[..n + 1]) == Value(head + [q]) * d + r
  {
    assert s0[..n + 1][..n] == s0[..n] && (head + [q])[..|head|] == head;
    assert Value(s0[..n + 1]) == Value(s0[..n]) * 2048 + s0[n];
    assert Value(head + [q]) == Value(head) * 2048 + q;
    DivAlgebra(Value(s0[..n]), Value(head), r0, s0[n], x, q, d, r);
  }

  /** `x - (x // d) * d` is the remainder of x by d. */
  lemma RemainderBound(x: int, q: int, d: int)
    requires d > 0 && q == x / d
    ensures 0 <= x - q * d < d
  {
    assert x == d * q + x % d;
  }

  lemma DivAlgebra(vs: int, vh: int, r0: int, limb: int, x: int, q: int, d: int, r: int)
    requires vs == vh * d + r0 && x == limb + r0 * 2048 && r == x - q * d
    ensures vs * 2048 + limb == (vh * 2048 + q) * d + r
  {
  }

  /** A limb below 2048 plus a carried remainder below d gives a quotient limb below 2048. */
  lemma QuotientLimb(limb: nat, r0: nat, x: nat, q: nat, d: nat)
    requires limb < 2048 && r0 < d && x == limb + r0 * 2048 && q == x / d
    ensures q < 2048
  {
    assert x < (r0 + 1) * 2048;
    MulLe(r0 + 1, d, 2048);
    assert q * d <= x;
    if q >= 2048 {
      MulLe(2048, q, d);
      assert false;
    }
  }

  /** The limbs are all 0 exactly when the number is 0. */
  lemma {:induction false} ZeroValue(s: seq<nat>)
    ensures (forall i :: 0 <= i < |s| ==> s[i] == 0) <==> Value(s) == 0
    decreases |s|
  {
    if s != [] {
      var init := s[..|s| - 1];
      ZeroValue(init);
      assert (forall i :: 0 <= i < |s| ==> s[i] == 0) <==>
        s[|s| - 1] == 0 && forall i :: 0 <= i < |init| ==> init[i] == 0;
    }
  }

  /** `iszero`: scan from the least significant limb for one that is not 0. */
  method IsZero(num: array<nat>) returns (z: bool)
    ensures z <==> forall i :: 0 <= i < num.Length ==> num[i] == 0
    ensures z <==> Value(num[..]) == 0
  {
    ZeroValue(num[..]);
    var n: nat := num.Length;
    while n > 0
      invariant n <= num.Length
      invariant forall i :: n <= i < num.Length ==> num[i] == 0
    {
      if num[n - 1] != 0 {
        return false;
      }
      n := n - 1;
    }
    return true;
  }

  /** `add(num, -1)` on a non-zero number in range lowers it by exactly 1. */
  lemma Decrement(s: seq<nat>, s': seq<nat>)
    requires Limbs(s) && |s'| == |s| && Value(s) > 0
    requires Value(s') == (Value(s) - 1) % Power(|s|)
    ensures Value(s') == Value(s) - 1
  {
    ValueBound(s);
    ModUnique(Value(s) - 1, 0, Power(|s|), Value(s) - 1);
  }

  /** The k limbs of v modulo 2048^k, most significant first. */
  function ToLimbs(v: nat, k: nat): (s: seq<nat>)
    ensures |s| == k && Limbs(s)
  {
    if k == 0 then [] else ToLimbs(v / 2048, k - 1) + [v % 2048]
  }

  /** Limbs in range are the limbs of the number they stand for: the
      representation is unique. */
  lemma {:induction false} LimbsUnique(s: seq<nat>)
    requires Limbs(s)
    ensures s == ToLimbs(Value(s), |s|)
    decreases |s|
  {
    if s != [] {
      var init := s[..|s| - 1];
      LimbsUnique(init);
      ModUnique(s[|s| - 1], Value(init), 2048, Value(s));
      assert s == init + [s[|s| - 1]];
    }
  }
}

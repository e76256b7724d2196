/** Decimal digits as the decoder takes them off its number: the 20 tracking
    digits, the routing digits in groups of 5, 4 and 2, and step 1 of the
    USPS-B-3200 encoding that puts them together again. */
module Digits {
  import opened BigNum

  function Pow10(k: nat): (r: nat)
    ensures r >= 1
  {
    if k == 0 then 1 else 10 * Pow10(k - 1)
  }

  predicate IsDigits(ds: seq<nat>)
  {
    forall i :: 0 <= i < |ds| ==> ds[i] < 10
  }

  /** The number a digit list spells, most significant digit first. */
  function Decimal(ds: seq<nat>): nat
  {
    if ds == [] then 0 else Decimal(ds[..|ds| - 1]) * 10 + ds[|ds| - 1]
  }

  lemma {:induction false} DecimalBound(ds: seq<nat>)
    requires IsDigits(ds)
    ensures Decimal(ds) < Pow10(|ds|)
    decreases |ds|
  {
    if ds != [] {
      DecimalBound(ds[..|ds| - 1]);
    }
  }

  lemma {:induction false} DecimalConcat(p: seq<nat>, q: seq<nat>)
    ensures Decimal(p + q) == Decimal(p) * Pow10(|q|) + Decimal(q)
    decreases |q|
  {
    if q == [] {
      assert p + q == p;
    } else {
      var init := q[..|q| - 1];
      assert (p + q)[..|p + q| - 1] == p + init;
      DecimalConcat(p, init);
      calc {
        Decimal(p + q);
        Decimal(p + init) * 10 + q[|q| - 1];
        (Decimal(p) * Pow10(|init|) + Decimal(init)) * 10 + q[|q| - 1];
        { assert (Decimal(p) * Pow10(|init|)) * 10 == Decimal(p) * (10 * Pow10(|init|)); }
        Decimal(p) * Pow10(|q|) + Decimal(q);
      }
    }
  }

  lemma DecimalOne(d: nat)
    ensures Decimal([d]) == d
  {
    assert [d][..0] == [];
  }

  /** k rounds of `divmod(num, 10)`: the digits taken off, the last one taken
      first in the list, and the quotient that is left. */
  function Peel(v: nat, k: nat): (p: (seq<nat>, nat))
    ensures |p.0| == k && IsDigits(p.0)
  {
    if k == 0 then ([], v)
    else
      var inner := Peel(v, k - 1);
      ([inner.1 % 10] + inner.0, inner.1 / 10)
  }

  /** (a + 10b)·P split into its two parts. */
  lemma Distrib(q: int, a: int, b: int, p: int)
    requires q == a + 10 * b
    ensures q * p == a * p + b * (10 * p)
  {
    assert q * p == a * p + (10 * b) * p;
  }

  /** The peeled digits and the quotient give back the number. */
  lemma {:induction false} PeelValue(v: nat, k: nat)
    ensures Decimal(Peel(v, k).0) + Peel(v, k).1 * Pow10(k) == v
  {
    if k > 0 {
      PeelValue(v, k - 1);
      var inner := Peel(v, k - 1);
      var q := inner.1;
      DecimalConcat([q % 10], inner.0);
      DecimalOne(q % 10);
      Distrib(q, q % 10, q / 10, Pow10(k - 1));
    }
  }

  /** Peeling a number written with the digits ds gives back exactly ds. */
  lemma {:induction false} PeelUnique(ds: seq<nat>, q: nat)
    requires IsDigits(ds)
    ensures Peel(Decimal(ds) + q * Pow10(|ds|), |ds|) == (ds, q)
    decreases |ds|
  {
    if ds != [] {
      var rest := ds[1..];
      var q' := ds[0] + q * 10;
      DecimalConcat([ds[0]], rest);
      DecimalOne(ds[0]);
      assert [ds[0]] + rest == ds;
      Distrib(q', ds[0], q, Pow10(|rest|));
      PeelUnique(rest, q');
      assert q' % 10 == ds[0] && q' / 10 == q;
    }
  }

  /** The number of tracking digits taken off with divisor 10 before the
      divisor-5 digit. */
  const TrackLow: nat := 18

  /** The tracking loop of `decode_chars`: 18 digits from the end, then the
      digit below 5 (the second barcode-identifier digit), then the first;
      returns the 20 tracking digits in order and the routing number left. */
  function Track(v: nat): (p: (seq<nat>, nat))
    ensures |p.0| == TrackLow + 2 && IsDigits(p.0) && p.0[1] < 5
  {
    var low := Peel(v, TrackLow);
    var q := low.1;
    ([q / 5 % 10, q % 5] + low.0, q / 5 / 10)
  }

  /** Step 1 of the encoding: the routing number and the 20 tracking digits
      as one number. */
  function TrackValue(track: seq<nat>, routing: nat): nat
    requires |track| == TrackLow + 2
  {
    var high: nat := (routing * 10 + track[0]) * 5 + track[1];
    high * Pow10(TrackLow) + Decimal(track[2..])
  }

  lemma TrackRecompose(v: nat)
    ensures TrackValue(Track(v).0, Track(v).1) == v
  {
    PeelValue(v, TrackLow);
    var low := Peel(v, TrackLow);
    assert Track(v).0[2..] == low.0;
    var q := low.1;
    assert q == (q / 5 / 10 * 10 + q / 5 % 10) * 5 + q % 5;
  }

  lemma TrackUnique(track: seq<nat>, routing: nat)
    requires |track| == TrackLow + 2 && IsDigits(track) && track[1] < 5
    ensures Track(TrackValue(track, routing)) == (track, routing)
  {
    var q := (routing * 10 + track[0]) * 5 + track[1];
    var low := track[2..];
    var v := TrackValue(track, routing);
    assert v == Decimal(low) + q * Pow10(|low|);
    PeelUnique(low, q);
    assert q % 5 == track[1] && q / 5 == routing * 10 + track[0];
    var h := routing * 10 + track[0];
    assert h % 10 == track[0] && h / 10 == routing;
    assert Track(v) == ([q / 5 % 10, q % 5] + low, q / 5 / 10);
    assert [track[0], track[1]] + low == track;
  }

  /** The free places left in the 11-place routing array when the group of
      size sz comes up. */
  function Room(sz: nat): nat
  {
    if sz >= 5 then 11 else if sz == 4 then 6 else if sz >= 2 then 2 else 0
  }

  /** The routing loop of `decode_chars` from group size sz down: size 3 is
      skipped, a zero number ends the loop, and otherwise 1 is taken off and
      the group's digits are peeled. Returns the routing digits, most
      significant first, and what is left of the number. */
  function Route(r: nat, sz: nat): (p: (seq<nat>, nat))
    requires sz <= 5
    ensures IsDigits(p.0) && |p.0| <= Room(sz)
    decreases sz
  {
    if sz < 2 then ([], r)
    else if sz == 3 then Route(r, 2)
    else if r == 0 then ([], r)
    else
      var group := Peel(r - 1, sz);
      var rest := Route(group.1, sz - 1);
      assert IsDigits(rest.0 + group.0) by {
        forall i | 0 <= i < |rest.0 + group.0|
          ensures (rest.0 + group.0)[i] < 10
        {
          if i >= |rest.0| {
            assert (rest.0 + group.0)[i] == group.0[i - |rest.0|];
          }
        }
      }
      (rest.0 + group.0, rest.1)
  }

  /** The routing digit strings there are: none, a ZIP code, ZIP+4, or
      ZIP+4 and a delivery point. */
  predicate RoutingShape(ds: seq<nat>)
  {
    |ds| == 0 || |ds| == 5 || |ds| == 9 || |ds| == 11
  }

  /** Step 1 of the encoding: the routing code as a number, 0 when there is
      none, with offsets that keep the 5-, 9- and 11-digit forms apart. */
  function RoutingValue(ds: seq<nat>): nat
  {
    if |ds| == 5 then Decimal(ds) + 1
    else if |ds| == 9 then Decimal(ds) + 100001
    else if |ds| == 11 then Decimal(ds) + 1000100001
    else 0
  }

  /** The widths of the routing fields: the ZIP code, the +4 and the
      delivery point. */
  const ZipDigits: nat := 5
  const Plus4Digits: nat := 4
  const PointDigits: nat := 2

  /** The sizes of the groups the routing loop peels from the low end of
      the routing value, in order. They are not the fields: the first
      group of an 11-digit routing code holds its last five digits. */
  const FirstGroup: nat := 5
  const SecondGroup: nat := 4
  const LastGroup: nat := 2

  lemma Pow10Values()
    ensures Pow10(2) == 100 && Pow10(4) == 10000 && Pow10(5) == 100000
    ensures Pow10(11) == 100000000000
  {
  }

  /** One group of the routing loop on a non-zero number. */
  lemma RouteGroup(r: nat, sz: nat)
    requires r > 0 && sz <= 5 && sz != 3 && sz >= 2
    ensures Route(r, sz) ==
      (Route(Peel(r - 1, sz).1, sz - 1).0 + Peel(r - 1, sz).0, Route(Peel(r - 1, sz).1, sz - 1).1)
    ensures r == 1 + Decimal(Peel(r - 1, sz).0) + Peel(r - 1, sz).1 * Pow10(sz)
  {
    PeelValue(r - 1, sz);
  }

  /** The routing loop after the last group, or at a zero number, leaves the
      number as it is. */
  lemma RouteEnd(r: nat, sz: nat)
    requires sz <= 5 && (sz < 2 || r == 0)
    ensures Route(r, sz) == ([], r)
  {
  }

  /** The loop skips group size 3. */
  lemma RouteSkip(r: nat)
    ensures Route(r, 3) == Route(r, 2)
  {
  }

  lemma Offsets11(r: int, d2: int, d4: int, d5: int, q1: int, q2: int, left: int, ds: int)
    requires r == 1 + d5 + q1 * 100000 && q1 == 1 + d4 + q2 * 10000 && q2 == 1 + d2 + left * 100
    requires ds == (d2 * 10000 + d4) * 100000 + d5
    ensures r == ds + 1000100001 + left * 100000000000
  {
  }

  lemma Offsets9(r: int, d4: int, d5: int, q1: int, ds: int)
    requires r == 1 + d5 + q1 * 100000 && q1 == 1 + d4
    requires ds == d4 * 100000 + d5
    ensures r == ds + 100001
  {
  }

  /** The routing loop on a number of at most 100000. */
  lemma RouteZip(r: nat)
    requires 0 < r && Peel(r - 1, FirstGroup).1 == 0
    ensures Route(r, FirstGroup) == (Peel(r - 1, FirstGroup).0, 0)
    ensures r == RoutingValue(Route(r, FirstGroup).0)
  {
    RouteGroup(r, FirstGroup);
    RouteEnd(0, SecondGroup);
    assert [] + Peel(r - 1, FirstGroup).0 == Peel(r - 1, FirstGroup).0;
  }

  /** The routing loop on a number with a +4 but no delivery point. */
  lemma RoutePlus4(r: nat)
    requires 0 < r && Peel(r - 1, FirstGroup).1 > 0
    requires Peel(Peel(r - 1, FirstGroup).1 - 1, SecondGroup).1 == 0
    ensures Route(r, FirstGroup) ==
      (Peel(Peel(r - 1, FirstGroup).1 - 1, SecondGroup).0 + Peel(r - 1, FirstGroup).0, 0)
    ensures r == RoutingValue(Route(r, FirstGroup).0)
  {
    Pow10Values();
    RouteGroup(r, FirstGroup);
    var g5 := Peel(r - 1, FirstGroup);
    var q1 := g5.1;
    RouteGroup(q1, SecondGroup);
    var g4 := Peel(q1 - 1, SecondGroup);
    RouteEnd(0, LastGroup);
    assert [] + g4.0 == g4.0;
    DecimalConcat(g4.0, g5.0);
    Offsets9(r, Decimal(g4.0), Decimal(g5.0), q1, Decimal(g4.0 + g5.0));
  }

  /** The +4 and delivery-point groups of the routing loop. */
  lemma RouteTail(q1: nat)
    requires 0 < q1 && Peel(q1 - 1, SecondGroup).1 > 0
    ensures var g4 := Peel(q1 - 1, SecondGroup);
      var g2 := Peel(g4.1 - 1, LastGroup);
      Route(q1, SecondGroup) == (g2.0 + g4.0, g2.1) &&
      q1 == 1 + Decimal(g4.0) + g4.1 * 10000 && g4.1 == 1 + Decimal(g2.0) + g2.1 * 100
  {
    Pow10Values();
    RouteGroup(q1, SecondGroup);
    var g4 := Peel(q1 - 1, SecondGroup);
    var q2 := g4.1;
    RouteGroup(q2, LastGroup);
    var g2 := Peel(q2 - 1, LastGroup);
    RouteEnd(g2.1, LastGroup - 1);
    RouteSkip(q2);
    assert Route(q2, SecondGroup - 1) == ([] + g2.0, g2.1);
    assert [] + g2.0 == g2.0;
  }

  /** The routing loop on a number that reaches the delivery-point group. */
  lemma RoutePoint(r: nat)
    requires 0 < r && Peel(r - 1, FirstGroup).1 > 0
    requires Peel(Peel(r - 1, FirstGroup).1 - 1, SecondGroup).1 > 0
    ensures |Route(r, FirstGroup).0| == 11
    ensures r == RoutingValue(Route(r, FirstGroup).0) + Route(r, FirstGroup).1 * Pow10(11)
  {
    Pow10Values();
    RouteGroup(r, FirstGroup);
    var g5 := Peel(r - 1, FirstGroup);
    var q1 := g5.1;
    RouteTail(q1);
    var g4 := Peel(q1 - 1, SecondGroup);
    var q2 := g4.1;
    var g2 := Peel(q2 - 1, LastGroup);
    assert Route(r, FirstGroup) == (g2.0 + g4.0 + g5.0, g2.1);
    assert g2.0 + g4.0 + g5.0 == g2.0 + (g4.0 + g5.0);
    DecimalConcat(g4.0, g5.0);
    DecimalConcat(g2.0, g4.0 + g5.0);
    Offsets11(r, Decimal(g2.0), Decimal(g4.0), Decimal(g5.0), q1, q2, g2.1,
      Decimal(g2.0 + (g4.0 + g5.0)));
  }

  /** The routing digits and what is left give back the routing number;
      only a full 11-digit code can leave anything. */
  lemma RouteRecompose(r: nat)
    ensures RoutingShape(Route(r, FirstGroup).0)
    ensures r == RoutingValue(Route(r, FirstGroup).0) + Route(r, FirstGroup).1 * Pow10(11)
    ensures Route(r, FirstGroup).1 > 0 ==> |Route(r, FirstGroup).0| == 11
  {
    if r == 0 {
      RouteEnd(r, FirstGroup);
    } else if Peel(r - 1, FirstGroup).1 == 0 {
      RouteZip(r);
    } else if Peel(Peel(r - 1, FirstGroup).1 - 1, SecondGroup).1 == 0 {
      RoutePlus4(r);
    } else {
      RoutePoint(r);
    }
  }

  /** Which routing fields the decoder finds depends only on the size of the
      routing number: none for 0, a ZIP code up to 100000, ZIP+4 up to
      1000100000, and the delivery point above that. */
  lemma RouteLength(r: nat)
    ensures |Route(r, FirstGroup).0| ==
      if r == 0 then 0 else if r <= 100000 then 5 else if r <= 1000100000 then 9 else 11
  {
    RouteRecompose(r);
    Pow10Values();
    var ds := Route(r, FirstGroup).0;
    DecimalBound(ds);
    if |ds| == 0 {
      assert r == 0;
    }
  }

  /** Two digit lists of one length that spell the same number are equal. */
  lemma DecimalInjective(ds: seq<nat>, es: seq<nat>)
    requires IsDigits(ds) && IsDigits(es) && |ds| == |es| && Decimal(ds) == Decimal(es)
    ensures ds == es
  {
    PeelUnique(ds, 0);
    PeelUnique(es, 0);
  }

  /** Decoding the routing number of a routing code (plus any multiple of
      10^11 when the code is a full 11 digits) gives back the code. */
  lemma RouteUnique(ds: seq<nat>, left: nat)
    requires IsDigits(ds) && RoutingShape(ds) && (left > 0 ==> |ds| == 11)
    ensures Route(RoutingValue(ds) + left * Pow10(11), FirstGroup) == (ds, left)
  {
    Pow10Values();
    var r := RoutingValue(ds) + left * Pow10(11);
    RouteRecompose(r);
    RouteLength(r);
    DecimalBound(ds);
    var es := Route(r, FirstGroup).0;
    var left' := Route(r, FirstGroup).1;
    DecimalBound(es);
    assert |es| == |ds|;
    if |ds| == 11 {
      ModUnique(Decimal(ds), left, Pow10(11), r - 1000100001);
      ModUnique(Decimal(es), left', Pow10(11), r - 1000100001);
    }
    DecimalInjective(ds, es);
  }

  function Digit(d: nat): char
    requires d < 10
  {
    ('0' as int + d) as char
  }

  /** `''.join(str(d) for d in ds)` for a list of digits. */
  function Text(ds: seq<nat>): (s: string)
    requires IsDigits(ds)
    ensures |s| == |ds| && forall i :: 0 <= i < |s| ==> s[i] == Digit(ds[i])
  {
    if ds == [] then "" else [Digit(ds[0])] + Text(ds[1..])
  }

  predicate IsDigitText(s: string)
  {
    forall i :: 0 <= i < |s| ==> '0' <= s[i] <= '9'
  }

  /** The digits a digit text spells. */
  function DigitsOf(s: string): (ds: seq<nat>)
    requires IsDigitText(s)
    ensures |ds| == |s| && IsDigits(ds)
  {
    seq(|s|, i requires 0 <= i < |s| => s[i] as int - '0' as int)
  }

  lemma TextDigits(ds: seq<nat>)
    requires IsDigits(ds)
    ensures IsDigitText(Text(ds)) && DigitsOf(Text(ds)) == ds
  {
  }

  lemma DigitsText(s: string)
    requires IsDigitText(s)
    ensures Text(DigitsOf(s)) == s
  {
  }
}

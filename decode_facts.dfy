/** What a successful decode yields: the shapes of the fields, the routing
    number thresholds at which each routing field appears, and the round
    trip with step 1 of the encoding. */
module DecodeFacts {
  import opened Wrappers
  import opened Digits
  import opened Decoding

  /** An optional field that is a digit text of length n when present. */
  predicate OptText(o: Option<string>, n: nat)
  {
    o.Some? ==> IsDigitText(o.value) && |o.value| == n
  }

  /** The field shapes of a decoded barcode: a two-digit barcode identifier
      whose second digit is at most 4, a three-digit service type, a 9-digit
      mailer identifier starting with 9 or a 6-digit one that does not, a
      serial number filling the 15 digits, and a ZIP code, +4 and delivery
      point each present only when the one before it is. */
  predicate WellFormed(f: Fields)
  {
    IsDigitText(f.barcodeId) && |f.barcodeId| == 2 && f.barcodeId[1] <= '4' &&
    IsDigitText(f.serviceType) && |f.serviceType| == 3 &&
    IsDigitText(f.mailerId) && IsDigitText(f.serialNum) &&
    (if |f.mailerId| == 9 then f.mailerId[0] == '9' else |f.mailerId| == 6 && f.mailerId[0] != '9') &&
    |f.mailerId| + |f.serialNum| == 15 &&
    OptText(f.zip, ZipDigits) && OptText(f.plus4, Plus4Digits) && OptText(f.deliveryPt, PointDigits) &&
    (f.plus4.Some? ==> f.zip.Some?) && (f.deliveryPt.Some? ==> f.plus4.Some?)
  }

  function Spelled(o: Option<string>): string
  {
    if o.Some? then o.value else ""
  }

  /** The 20 tracking digits as text. */
  function TrackingText(f: Fields): string
  {
    f.barcodeId + f.serviceType + f.mailerId + f.serialNum
  }

  /** The routing code as text: empty, 5, 9 or 11 digits. */
  function RoutingText(f: Fields): string
  {
    Spelled(f.zip) + Spelled(f.plus4) + Spelled(f.deliveryPt)
  }

  lemma ConcatText(a: string, b: string)
    requires IsDigitText(a) && IsDigitText(b)
    ensures IsDigitText(a + b)
  {
    forall i | 0 <= i < |a + b| ensures '0' <= (a + b)[i] <= '9' {
      if i >= |a| {
        assert (a + b)[i] == b[i - |a|];
      }
    }
  }

  lemma WellFormedTexts(f: Fields)
    requires WellFormed(f)
    ensures IsDigitText(TrackingText(f)) && |TrackingText(f)| == TrackLow + 2
    ensures IsDigitText(RoutingText(f)) && RoutingShape(DigitsOf(RoutingText(f)))
  {
    ConcatText(f.barcodeId, f.serviceType);
    ConcatText(f.barcodeId + f.serviceType, f.mailerId);
    ConcatText(f.barcodeId + f.serviceType + f.mailerId, f.serialNum);
    ConcatText(Spelled(f.zip), Spelled(f.plus4));
    ConcatText(Spelled(f.zip) + Spelled(f.plus4), Spelled(f.deliveryPt));
  }

  /** Step 1 of the encoding: the number a well-formed set of fields stands
      for. */
  function Encode(f: Fields): nat
    requires WellFormed(f)
  {
    WellFormedTexts(f);
    TrackValue(DigitsOf(TrackingText(f)), RoutingValue(DigitsOf(RoutingText(f))))
  }

  lemma TextConcat(a: seq<nat>, b: seq<nat>)
    requires IsDigits(a) && IsDigits(b)
    ensures IsDigits(a + b) && Text(a + b) == Text(a) + Text(b)
  {
    assert IsDigits(a + b) by {
      forall i | 0 <= i < |a + b| ensures (a + b)[i] < 10 {
        if i >= |a| {
          assert (a + b)[i] == b[i - |a|];
        }
      }
    }
    forall i | 0 <= i < |a + b| ensures Text(a + b)[i] == (Text(a) + Text(b))[i] {
      if i >= |a| {
        assert (a + b)[i] == b[i - |a|];
      }
    }
  }

  /** A slice of a digit text, turned into digits and back. */
  lemma SpellSlice(s: string, i: nat, j: nat)
    requires IsDigitText(s) && i <= j <= |s|
    ensures Text(DigitsOf(s)[i..j]) == s[i..j]
  {
    var ds := DigitsOf(s)[i..j];
    forall k | 0 <= k < j - i ensures Text(ds)[k] == s[i + k] {
      assert ds[k] == s[i + k] as int - '0' as int;
    }
  }

  /** A digit list spelled out is a digit text of the same length. */
  lemma SpellDigits(ds: seq<nat>)
    requires IsDigits(ds)
    ensures IsDigitText(Text(ds)) && |Text(ds)| == |ds|
  {
    TextDigits(ds);
  }

  /** The tracking fields `Format` cuts from 20 digits whose second digit is
      below 5 have the shapes of a decoded barcode. */
  lemma FormatTracking(track: seq<nat>, route: seq<nat>, pos: nat)
    requires |track| == 20 && IsDigits(track) && track[1] < 5
    requires |route| == 11 && IsDigits(route) && pos <= 11
    ensures var f := Format(track, route, pos);
      IsDigitText(f.barcodeId) && |f.barcodeId| == 2 && f.barcodeId[1] <= '4' &&
      IsDigitText(f.serviceType) && |f.serviceType| == 3 &&
      IsDigitText(f.mailerId) && IsDigitText(f.serialNum) &&
      (if |f.mailerId| == 9 then f.mailerId[0] == '9' else |f.mailerId| == 6 && f.mailerId[0] != '9') &&
      |f.mailerId| + |f.serialNum| == 15
  {
    SpellDigits(track[0..2]);
    SpellDigits(track[2..5]);
    if track[5] == 9 {
      SpellDigits(track[5..14]);
      SpellDigits(track[14..20]);
    } else {
      SpellDigits(track[5..11]);
      SpellDigits(track[11..20]);
    }
  }

  /** The routing fields `Format` cuts from position pos on. */
  lemma FormatRouting(track: seq<nat>, route: seq<nat>, pos: nat)
    requires |track| == 20 && IsDigits(track)
    requires |route| == 11 && IsDigits(route) && pos <= 11
    ensures var f := Format(track, route, pos);
      OptText(f.zip, ZipDigits) && OptText(f.plus4, Plus4Digits) && OptText(f.deliveryPt, PointDigits) &&
      (f.zip.Some? <==> pos <= 6) && (f.plus4.Some? <==> pos <= 2) && (f.deliveryPt.Some? <==> pos == 0)
  {
    if pos <= 6 {
      SpellDigits(route[pos..pos + 5]);
    }
    if pos <= 2 {
      SpellDigits(route[pos + 5..pos + 9]);
    }
    if pos == 0 {
      SpellDigits(route[9..11]);
    }
  }

  /** Every successful decode has well-formed fields. */
  lemma FieldsWellFormed(v: nat)
    ensures WellFormed(FieldsOf(v))
  {
    var t := Track(v).0;
    var ds := Route(Track(v).1, FirstGroup).0;
    FormatTracking(t, Placed(ds), 11 - |ds|);
    FormatRouting(t, Placed(ds), 11 - |ds|);
  }

  /** Which routing fields a decode finds, by the size of the routing number
      the tracking digits leave: a ZIP code when it is positive, a +4 above
      100000 and a delivery point above 1000100000. */
  lemma FieldsPresence(v: nat)
    ensures FieldsOf(v).zip.Some? <==> Track(v).1 > 0
    ensures FieldsOf(v).plus4.Some? <==> Track(v).1 > 100000
    ensures FieldsOf(v).deliveryPt.Some? <==> Track(v).1 > 1000100000
  {
    var t := Track(v).0;
    var ds := Route(Track(v).1, FirstGroup).0;
    RouteLength(Track(v).1);
    FormatRouting(t, Placed(ds), 11 - |ds|);
  }

  /** Two adjacent slices of a digit list spelled out one after the other. */
  lemma TextSplit(ds: seq<nat>, i: nat, j: nat, k: nat)
    requires IsDigits(ds) && i <= j <= k <= |ds|
    ensures IsDigits(ds[i..j]) && IsDigits(ds[j..k]) && IsDigits(ds[i..k])
    ensures Text(ds[i..j]) + Text(ds[j..k]) == Text(ds[i..k])
  {
    assert ds[i..j] + ds[j..k] == ds[i..k];
    TextConcat(ds[i..j], ds[j..k]);
  }

  /** Four adjacent slices covering a digit list spell it out. */
  lemma TextQuarters(ds: seq<nat>, i: nat, j: nat, k: nat)
    requires IsDigits(ds) && i <= j <= k <= |ds|
    ensures Text(ds[0..i]) + Text(ds[i..j]) + Text(ds[j..k]) + Text(ds[k..|ds|]) == Text(ds)
  {
    TextSplit(ds, 0, i, j);
    TextSplit(ds, 0, j, k);
    TextSplit(ds, 0, k, |ds|);
    assert ds[0..|ds|] == ds;
  }

  /** The tracking fields spell out the tracking digits in order. */
  lemma TrackingSpell(track: seq<nat>, route: seq<nat>, pos: nat)
    requires |track| == 20 && IsDigits(track) && |route| == 11 && IsDigits(route) && pos <= 11
    ensures TrackingText(Format(track, route, pos)) == Text(track)
  {
    var m := if track[5] == 9 then 14 else 11;
    TextQuarters(track, 2, 5, m);
  }

  /** The routing fields spell out the routing array from pos on. */
  lemma RoutingSpell(track: seq<nat>, route: seq<nat>, pos: nat)
    requires |track| == 20 && IsDigits(track) && |route| == 11 && IsDigits(route)
    requires pos == 0 || pos == 2 || pos == 6 || pos == 11
    ensures RoutingText(Format(track, route, pos)) == Text(route[pos..])
  {
    if pos == 11 {
      assert route[pos..] == [];
    } else if pos == 6 {
      assert route[6..11] == route[pos..];
    } else if pos == 2 {
      NineSpell(track, route);
    } else {
      ElevenSpell(track, route);
    }
  }

  lemma NineSpell(track: seq<nat>, route: seq<nat>)
    requires |track| == 20 && IsDigits(track) && |route| == 11 && IsDigits(route)
    ensures RoutingText(Format(track, route, 2)) == Text(route[2..])
  {
    var f := Format(track, route, 2);
    assert f.zip == Some(Text(route[2..7])) && f.plus4 == Some(Text(route[7..11])) && f.deliveryPt == None;
    TextSplit(route, 2, 7, 11);
    assert route[2..11] == route[2..];
    assert RoutingText(f) == Text(route[2..7]) + Text(route[7..11]) + "";
  }

  lemma ElevenSpell(track: seq<nat>, route: seq<nat>)
    requires |track| == 20 && IsDigits(track) && |route| == 11 && IsDigits(route)
    ensures RoutingText(Format(track, route, 0)) == Text(route[0..])
  {
    var f := Format(track, route, 0);
    assert f.zip == Some(Text(route[0..5])) && f.plus4 == Some(Text(route[5..9]));
    assert f.deliveryPt == Some(Text(route[9..11]));
    TextSplit(route, 0, 5, 9);
    TextSplit(route, 0, 9, 11);
    assert route[0..11] == route[0..];
  }

  /** The fields of a decode spell out exactly the tracking digits and the
      routing digits the decoder peeled. */
  lemma FieldsSpell(v: nat)
    ensures TrackingText(FieldsOf(v)) == Text(Track(v).0)
    ensures RoutingText(FieldsOf(v)) == Text(Route(Track(v).1, FirstGroup).0)
  {
    var t := Track(v).0;
    var ds := Route(Track(v).1, FirstGroup).0;
    RouteRecompose(Track(v).1);
    TrackingSpell(t, Placed(ds), 11 - |ds|);
    RoutingSpell(t, Placed(ds), 11 - |ds|);
  }

  /** The weight of a routing number unit in the whole number. */
  function RoutingUnit(): nat
  {
    50 * Pow10(TrackLow)
  }

  /** Adding left times 10^11 to the routing number moves the whole number
      by that many times 10^11 routing units. */
  lemma TrackShift(track: seq<nat>, routing: nat, left: nat)
    requires |track| == TrackLow + 2
    ensures TrackValue(track, routing + left * Pow10(11)) ==
            TrackValue(track, routing) + left * Pow10(11) * RoutingUnit()
  {
    var p := Pow10(TrackLow);
    var d := left * Pow10(11);
    assert ((routing + d) * 10 + track[0]) * 5 + track[1] == ((routing * 10 + track[0]) * 5 + track[1]) + d * 50;
    assert (((routing * 10 + track[0]) * 5 + track[1]) + d * 50) * p
        == ((routing * 10 + track[0]) * 5 + track[1]) * p + d * (50 * p);
  }

  /** A number whose routing part is rv plus left times 10^11 is the number
      for rv moved by that many times 10^11 routing units. */
  lemma ShiftedTrack(t: seq<nat>, v: nat, r: nat, rv: nat, left: nat)
    requires |t| == TrackLow + 2 && TrackValue(t, r) == v && r == rv + left * Pow10(11)
    ensures v == TrackValue(t, rv) + left * Pow10(11) * RoutingUnit()
  {
    TrackShift(t, rv, left);
  }

  /** Step 1 of the encoding on the fields of a decode, in terms of the
      digits the decoder peeled. */
  lemma EncodeFields(v: nat)
    ensures WellFormed(FieldsOf(v))
    ensures Encode(FieldsOf(v)) == TrackValue(Track(v).0, RoutingValue(Route(Track(v).1, FirstGroup).0))
  {
    FieldsWellFormed(v);
    FieldsSpell(v);
    TextDigits(Track(v).0);
    TextDigits(Route(Track(v).1, FirstGroup).0);
  }

  /** A decode puts the number back together: step 1 of the encoding on the
      fields gives back the number, except for what the routing loop leaves
      over, which can only be there when all three routing fields are, and
      which the fields do not record. */
  lemma FieldsRecompose(v: nat)
    ensures WellFormed(FieldsOf(v))
    ensures v == Encode(FieldsOf(v)) + Leftover(v) * Pow10(11) * RoutingUnit()
    ensures Leftover(v) > 0 ==> FieldsOf(v).deliveryPt.Some?
  {
    var t := Track(v).0;
    var r := Track(v).1;
    var ds := Route(r, FirstGroup).0;
    var left := Route(r, FirstGroup).1;
    EncodeFields(v);
    TrackRecompose(v);
    RouteRecompose(r);
    ShiftedTrack(t, v, r, RoutingValue(ds), left);
    if left > 0 {
      FieldsPresence(v);
      RouteLength(r);
    }
  }

  /** The tracking fields `Format` cuts from the digits of well-formed
      fields are those fields. */
  lemma FormatTrackingText(f: Fields, route: seq<nat>, pos: nat)
    requires WellFormed(f) && |route| == 11 && IsDigits(route) && pos <= 11
    ensures IsDigitText(TrackingText(f)) && |TrackingText(f)| == TrackLow + 2
    ensures var g := Format(DigitsOf(TrackingText(f)), route, pos);
      g.barcodeId == f.barcodeId && g.serviceType == f.serviceType &&
      g.mailerId == f.mailerId && g.serialNum == f.serialNum
  {
    WellFormedTexts(f);
    var s := TrackingText(f);
    var t := DigitsOf(s);
    var m := 5 + |f.mailerId|;
    assert s[0..2] == f.barcodeId && s[2..5] == f.serviceType;
    assert s[5..m] == f.mailerId && s[m..20] == f.serialNum;
    assert s[5] == f.mailerId[0];
    assert t[5] == 9 <==> f.mailerId[0] == '9';
    SpellSlice(s, 0, 2);
    SpellSlice(s, 2, 5);
    SpellSlice(s, 5, m);
    SpellSlice(s, m, 20);
  }

  /** The routing fields `Format` cuts from the routing array of the digits
      of well-formed fields are those fields. */
  lemma FormatRoutingText(f: Fields, track: seq<nat>)
    requires WellFormed(f) && |track| == 20 && IsDigits(track)
    ensures IsDigitText(RoutingText(f)) && RoutingShape(DigitsOf(RoutingText(f)))
    ensures var ds := DigitsOf(RoutingText(f));
      var g := Format(track, Placed(ds), 11 - |ds|);
      g.zip == f.zip && g.plus4 == f.plus4 && g.deliveryPt == f.deliveryPt
  {
    WellFormedTexts(f);
    var s := RoutingText(f);
    var ds := DigitsOf(s);
    var route := Placed(ds);
    var pos := 11 - |ds|;
    assert route[pos..] == ds;
    if f.zip.Some? {
      assert s[0..5] == f.zip.value;
      assert route[pos..pos + 5] == ds[0..5];
      SpellSlice(s, 0, 5);
    }
    if f.plus4.Some? {
      assert s[5..9] == f.plus4.value;
      assert route[pos + 5..pos + 9] == ds[5..9];
      SpellSlice(s, 5, 9);
    }
    if f.deliveryPt.Some? {
      assert s[9..11] == f.deliveryPt.value;
      assert route[9..11] == ds[9..11];
      SpellSlice(s, 9, 11);
    }
  }

  /** The number step 1 of the encoding makes from tracking digits, a
      routing code and extra multiples of 10^11 routing units decodes to
      those digits, with the extra multiples left over. */
  lemma DecodeDigits(track: seq<nat>, ds: seq<nat>, left: nat, w: nat)
    requires |track| == TrackLow + 2 && IsDigits(track) && track[1] < 5
    requires IsDigits(ds) && RoutingShape(ds) && (left > 0 ==> |ds| == 11)
    requires w == TrackValue(track, RoutingValue(ds)) + left * Pow10(11) * RoutingUnit()
    ensures FieldsOf(w) == Format(track, Placed(ds), 11 - |ds|) && Leftover(w) == left
  {
    var routing := RoutingValue(ds) + left * Pow10(11);
    TrackShift(track, RoutingValue(ds), left);
    TrackUnique(track, routing);
    assert Track(w).0 == track && Track(w).1 == routing;
    RouteUnique(ds, left);
    assert Route(routing, FirstGroup).0 == ds && Route(routing, FirstGroup).1 == left;
  }

  /** The routing loop drops what it leaves over: a number that carries
      extra multiples of 10^11 routing units on top of the encoding of fields
      with a delivery point decodes to the same fields. */
  lemma LeftoverIgnored(f: Fields, left: nat, w: nat)
    requires WellFormed(f) && (left > 0 ==> f.deliveryPt.Some?)
    requires w == Encode(f) + left * Pow10(11) * RoutingUnit()
    ensures FieldsOf(w) == f && Leftover(w) == left
  {
    WellFormedTexts(f);
    var t := DigitsOf(TrackingText(f));
    var ds := DigitsOf(RoutingText(f));
    assert TrackingText(f)[1] == f.barcodeId[1];
    DecodeDigits(t, ds, left, w);
    FormatTrackingText(f, Placed(ds), 11 - |ds|);
    FormatRoutingText(f, t);
  }

  /** Decoding the encoding of well-formed fields gives back the fields,
      with nothing left over. */
  lemma FieldsEncode(f: Fields)
    requires WellFormed(f)
    ensures FieldsOf(Encode(f)) == f && Leftover(Encode(f)) == 0
  {
    LeftoverIgnored(f, 0, Encode(f));
  }
}

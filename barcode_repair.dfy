/** `repair_barcode` as the source runs it: a loop over the 66 candidate
    positions that keeps the best candidate found so far. */
module BarcodeRepair {
  import opened Wrappers
  import opened Codewords
  import opened Decoding
  import opened Bars
  import opened LengthRepair

  /** The inner loop of `repair_barcode`: how many of the ten characters
      the decode table has no entry for. */
  method CountErrs(t: Tables, chars: seq<nat>) returns (errs: nat)
    requires t.Valid() && |chars| == 10
    ensures errs == Errs(t.View(), chars, 10)
  {
    errs := 0;
    for n := 0 to 10
      invariant errs == Errs(t.View(), chars, n)
    {
      var c := chars[n];
      if c >= t.decode.Length || t.decode[c].None? {
        errs := errs + 1;
      }
    }
  }

  /** `repair_barcode`: a barcode of 64 bars gets a bar inserted, one of 66
      a bar removed, at the position whose candidate has the fewest unknown
      characters, if that is fewer than 5; any other barcode is returned as
      it is. */
  method RepairBarcode(t: Tables, barcode: string) returns (best: string)
    requires t.Valid()
    ensures best == RepairedBarcode(t.View(), barcode)
  {
    ghost var b := t.View();
    var longer;
    if |barcode| == 64 {
      longer := true;
    } else if |barcode| == 66 {
      longer := false;
    } else {
      return barcode;
    }
    best := barcode;
    var besterrs := MaxErrs;
    for pos := 0 to Slots
      invariant Pick(b, barcode, longer, 0, barcode, MaxErrs) == Pick(b, barcode, longer, pos, best, besterrs)
    {
      var testcode := Candidate(barcode, longer, pos);
      var chars := TextToChars(testcode, false);
      if chars.None? {
        continue;
      }
      var errs := CountErrs(t, chars.value);
      if errs < besterrs {
        besterrs := errs;
        best := testcode;
      }
    }
  }
}

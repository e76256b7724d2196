/** What a decode handed back by `decode_barcode` looks like, whichever
    stage found it, and so what `extract_zip_from_imb` can return. */
module ImbShapes {
  import opened Wrappers
  import opened Codewords
  import opened Decoding
  import opened Digits
  import opened Bars
  import opened CharRepair
  import opened LengthRepair
  import opened DecodeFacts
  import opened DecodeOutcome
  import opened Imb
  import opened ImbFacts

  /** A repair is the decode of one combination of candidates, with that
      combination's bars as the suggestion, so its fields are well formed. */
  lemma RepairDecodes(b: Book, chars: seq<nat>, f: Fields, s: string)
    requires Shaped(b) && |chars| >= 10 && RepairedChars(b, chars) == Some(Solved(f, s))
    ensures exists combo :: |combo| == 10 && Decode(b, combo) == Some(f) && s == CharsToText(combo)
    ensures WellFormed(f)
  {
    var p := Possible(b, chars, NumChars);
    assert RepairedChars(b, chars) == Try(b, p, [], 0, None);
    TrySolved(b, p, [], 0, None);
    var combo :| Completes(p, [], combo) && Leaf(b, combo) == Some(Solved(f, s));
    LeafDecodes(b, combo, f, s);
  }

  /** One solved combination: its decode and its bars. */
  lemma LeafDecodes(b: Book, combo: seq<nat>, f: Fields, s: string)
    requires Shaped(b) && |combo| == 10 && Leaf(b, combo) == Some(Solved(f, s))
    ensures Decode(b, combo) == Some(f) && s == CharsToText(combo) && WellFormed(f)
  {
    DecodeSuccess(b, combo);
  }

  /** The fields of the flip stage are well formed. */
  lemma FlippedWellFormed(b: Book, repaired: string)
    requires Shaped(b)
    ensures Flipped(b, repaired).fields.Some? ==> WellFormed(Flipped(b, repaired).fields.value)
  {
    FlippedCases(b, repaired);
    var rc := RepairedChars(b, Lenient(FlipBarcode(repaired)));
    Kinds(rc);
    if rc.Some? && rc.value.Solved? {
      RepairDecodes(b, Lenient(FlipBarcode(repaired)), rc.value.fields, rc.value.suggest);
    }
  }

  /** The fields of the character-repair stage are well formed. */
  lemma RepairingWellFormed(b: Book, repaired: string)
    requires Shaped(b)
    ensures Repairing(b, repaired).fields.Some? ==> WellFormed(Repairing(b, repaired).fields.value)
  {
    RepairingCases(b, repaired);
    var rc := RepairedChars(b, Lenient(repaired));
    Kinds(rc);
    if rc.Some? && rc.value.Solved? {
      RepairDecodes(b, Lenient(repaired), rc.value.fields, rc.value.suggest);
    } else if rc.None? {
      FlippedWellFormed(b, repaired);
    }
  }

  /** Whatever stage answers, decoded fields are well formed: digit
      strings of the lengths the barcode layout gives them. */
  lemma OutcomeWellFormed(b: Book, barcode: string)
    requires Shaped(b)
    ensures Outcome(b, barcode).fields.Some? ==> WellFormed(Outcome(b, barcode).fields.value)
  {
    OutcomeCases(b, barcode);
    if barcode != [] {
      var clean := CleanStr(barcode);
      if |clean| == 65 && Direct(b, clean).Some? {
        DecodeSuccess(b, Permute(clean, true).value);
      } else {
        RepairingWellFormed(b, RepairedOf(b, barcode));
      }
    }
  }

  /** Five digits, or five digits, a dash and four digits. */
  predicate ZipText(z: string)
  {
    (|z| == ZipDigits && IsDigitText(z)) ||
    (|z| == ZipDigits + 1 + Plus4Digits && IsDigitText(z[..ZipDigits]) && z[ZipDigits] == '-' &&
     IsDigitText(z[ZipDigits + 1..]))
  }

  /** `extract_zip_from_imb` returns five digits, or five digits, a dash and
      four digits: the decoded ZIP code, then the plus-4 code when the
      decode has one; and there is a result exactly when a decode carries a
      ZIP code. */
  lemma ZipShape(b: Book, barcode: string)
    requires Shaped(b)
    ensures var r := Outcome(b, barcode);
      ZipOf(r).Some? <==> r.fields.Some? && r.fields.value.zip.Some?
    ensures var r := Outcome(b, barcode);
      var z := ZipOf(r);
      z.Some? ==>
        ZipText(z.value) && r.fields.Some? && r.fields.value.zip == Some(z.value[..ZipDigits]) &&
        (r.fields.value.plus4.Some? <==> |z.value| > ZipDigits) &&
        (|z.value| > ZipDigits ==> r.fields.value.plus4 == Some(z.value[ZipDigits + 1..]))
  {
    OutcomeWellFormed(b, barcode);
    var r := Outcome(b, barcode);
    if ZipOf(r).Some? {
      var f := r.fields.value;
      var z := ZipOf(r).value;
      if f.plus4.Some? {
        assert z == f.zip.value + "-" + f.plus4.value;
        assert z[..ZipDigits] == f.zip.value;
        assert z[ZipDigits + 1..] == f.plus4.value;
      } else {
        assert z[..ZipDigits] == z;
      }
    }
  }
}

/** What `decode_barcode` and `extract_zip_from_imb` promise: the order in
    which the stages answer, and the shape of what a decode gives back. */
module ImbFacts {
  import opened Wrappers
  import opened Codewords
  import opened Decoding
  import opened Bars
  import opened CharRepair
  import opened LengthRepair
  import opened Imb

  /** The barcode after cleaning and length repair. */
  function RepairedOf(b: Book, barcode: string): string
    requires Shaped(b)
  {
    RepairedBarcode(b, CleanStr(barcode))
  }

  /** The six messages are different texts. */
  lemma MessagesDistinct()
    ensures |EmptyMsg| == 22 && |LengthMsg| == 34 && |RepairedMsg| == 24
    ensures |AmbiguousMsg| == 42 && |UpsideDownMsg| == 31 && |InvalidMsg| == 15
  {
  }

  /** The flip stage answers with the decode of the flipped barcode, or
      with "Invalid barcode". */
  lemma FlippedCases(b: Book, repaired: string)
    requires Shaped(b)
    ensures match RepairedChars(b, Lenient(FlipBarcode(repaired)))
      case Some(Solved(f, s)) => Flipped(b, repaired) == Response(Some(f), Some(UpsideDownMsg), Some(s), None)
      case _ => Flipped(b, repaired) == Failure(InvalidMsg)
  {
    LenientSome(FlipBarcode(repaired));
  }

  /** The character-repair stage answers with any result of the repair, and
      otherwise hands over to the flip stage. */
  lemma RepairingCases(b: Book, repaired: string)
    requires Shaped(b)
    ensures match RepairedChars(b, Lenient(repaired))
      case Some(Solved(f, s)) =>
        Repairing(b, repaired) == Response(Some(f), Some(RepairedMsg), Some(s), Some(Highlights.Highlight(repaired, s)))
      case Some(Ambiguous) => Repairing(b, repaired) == Failure(AmbiguousMsg)
      case None => Repairing(b, repaired) == Flipped(b, repaired)
  {
    LenientSome(repaired);
  }

  /** A repair result is nothing, a decode or the ambiguity report. */
  lemma Kinds(r: Option<Repaired>)
    ensures r == None || r == Some(Ambiguous) || (r.Some? && r.value.Solved?)
  {
  }

  /** The stages of `decode_barcode` in order. */
  lemma OutcomeCases(b: Book, barcode: string)
    requires Shaped(b)
    ensures Outcome(b, barcode) ==
      if barcode == [] then Failure(EmptyMsg)
      else if |CleanStr(barcode)| == 65 && Direct(b, CleanStr(barcode)).Some? then
        Response(Direct(b, CleanStr(barcode)), None, None, None)
      else if |RepairedOf(b, barcode)| != 65 then Failure(LengthMsg)
      else Repairing(b, RepairedOf(b, barcode))
  {
  }

  /** What a response carries: any message is one of the six texts; the
      decoded fields come with no message, the repair message or the
      upside-down message and with no other; a suggestion comes exactly
      with a repair, right way up or upside down; a highlight only with a
      repair the right way up. */
  lemma ResponseShapes(b: Book, barcode: string)
    requires Shaped(b)
    ensures var r := Outcome(b, barcode);
      r.message.Some? ==>
        r.message.value in {EmptyMsg, LengthMsg, RepairedMsg, AmbiguousMsg, UpsideDownMsg, InvalidMsg}
    ensures var r := Outcome(b, barcode);
      r.fields.Some? <==> r.message.None? || r.message == Some(RepairedMsg) || r.message == Some(UpsideDownMsg)
    ensures var r := Outcome(b, barcode);
      r.suggest.Some? <==> r.message == Some(RepairedMsg) || r.message == Some(UpsideDownMsg)
    ensures var r := Outcome(b, barcode);
      r.highlight.Some? <==> r.message == Some(RepairedMsg)
  {
    OutcomeCases(b, barcode);
    MessagesDistinct();
    if barcode != [] {
      var repaired := RepairedOf(b, barcode);
      RepairingCases(b, repaired);
      FlippedCases(b, repaired);
      Kinds(RepairedChars(b, Lenient(repaired)));
    }
  }

  /** Direct decoding answers first, and is the only stage that answers
      without a message. */
  lemma DirectFirst(b: Book, barcode: string)
    requires Shaped(b)
    ensures var r := Outcome(b, barcode);
      r.message.None? <==>
        barcode != [] && |CleanStr(barcode)| == 65 && Direct(b, CleanStr(barcode)).Some?
    ensures var r := Outcome(b, barcode);
      r.message.None? ==> r.fields == Direct(b, CleanStr(barcode)) && r.suggest.None? && r.highlight.None?
  {
    OutcomeCases(b, barcode);
    if barcode != [] {
      RepairingCases(b, RepairedOf(b, barcode));
      FlippedCases(b, RepairedOf(b, barcode));
    }
  }

  /** Empty input is reported as such, and only empty input. */
  lemma EmptyFirst(b: Book, barcode: string)
    requires Shaped(b)
    ensures Outcome(b, barcode).message == Some(EmptyMsg) <==> barcode == []
  {
    OutcomeCases(b, barcode);
    MessagesDistinct();
    if barcode != [] {
      RepairingCases(b, RepairedOf(b, barcode));
      FlippedCases(b, RepairedOf(b, barcode));
    }
  }

  /** The length message is given exactly when direct decoding failed and
      length repair did not give 65 bars. */
  lemma LengthSecond(b: Book, barcode: string)
    requires Shaped(b)
    ensures Outcome(b, barcode).message == Some(LengthMsg) <==>
      barcode != [] && !(|CleanStr(barcode)| == 65 && Direct(b, CleanStr(barcode)).Some?) &&
      |RepairedOf(b, barcode)| != 65
  {
    OutcomeCases(b, barcode);
    MessagesDistinct();
    if barcode != [] {
      RepairingCases(b, RepairedOf(b, barcode));
      FlippedCases(b, RepairedOf(b, barcode));
    }
  }

  /** A cleaned barcode of a length other than 64, 65 or 66 gets the length
      message. */
  lemma OtherLengths(b: Book, barcode: string)
    requires Shaped(b) && barcode != []
    requires |CleanStr(barcode)| != 64 && |CleanStr(barcode)| != 65 && |CleanStr(barcode)| != 66
    ensures Outcome(b, barcode) == Failure(LengthMsg)
  {
    OutcomeCases(b, barcode);
    RepairBarcodeBest(b, CleanStr(barcode));
  }

  /** A 65-bar barcode with a foreign symbol is not rejected: strict
      conversion fails, so it goes on to character repair as it is, where
      the symbol is read as a tracker. */
  lemma ForeignRepaired(b: Book, barcode: string)
    requires Shaped(b) && barcode != []
    requires |CleanStr(barcode)| == 65 && HasForeign(CleanStr(barcode))
    ensures Outcome(b, barcode) == Repairing(b, CleanStr(barcode))
  {
    var clean := CleanStr(barcode);
    OutcomeCases(b, barcode);
    CleanStrIdempotent(barcode);
    StrictRejects(clean);
    RepairBarcodeBest(b, clean);
  }

  /** The repair stages answer only for a barcode that direct decoding
      did not take and that length repair brought to 65 bars. */
  lemma LateStages(b: Book, barcode: string)
    requires Shaped(b)
    ensures var m := Outcome(b, barcode).message;
      m != None && m != Some(EmptyMsg) && m != Some(LengthMsg) ==>
        |RepairedOf(b, barcode)| == 65 && Outcome(b, barcode) == Repairing(b, RepairedOf(b, barcode))
  {
    OutcomeCases(b, barcode);
    MessagesDistinct();
  }

  /** The upside-down reading answers only when character repair found
      nothing in the barcode the right way up. */
  lemma FlipLast(b: Book, barcode: string)
    requires Shaped(b)
    ensures var r := Outcome(b, barcode);
      var repaired := RepairedOf(b, barcode);
      r.message == Some(UpsideDownMsg) ==>
        |repaired| == 65 && r.fields.Some? && r.suggest.Some? &&
        RepairedChars(b, Lenient(repaired)) == None &&
        RepairedChars(b, Lenient(FlipBarcode(repaired))) == Some(Solved(r.fields.value, r.suggest.value))
  {
    var repaired := RepairedOf(b, barcode);
    MessagesDistinct();
    LateStages(b, barcode);
    RepairingCases(b, repaired);
    FlippedCases(b, repaired);
  }

  /** Finding two repairs ends the search with the ambiguity report; the
      flip is not tried. */
  lemma AmbiguousBeforeFlip(b: Book, barcode: string)
    requires Shaped(b)
    ensures var r := Outcome(b, barcode);
      var repaired := RepairedOf(b, barcode);
      r.message == Some(AmbiguousMsg) <==>
        barcode != [] && !(|CleanStr(barcode)| == 65 && Direct(b, CleanStr(barcode)).Some?) &&
        |repaired| == 65 && RepairedChars(b, Lenient(repaired)) == Some(Ambiguous)
  {
    var repaired := RepairedOf(b, barcode);
    var r := Outcome(b, barcode);
    MessagesDistinct();
    OutcomeCases(b, barcode);
    if barcode != [] && !(|CleanStr(barcode)| == 65 && Direct(b, CleanStr(barcode)).Some?) && |repaired| == 65 {
      assert r == Repairing(b, repaired);
      RepairingCases(b, repaired);
      var rc := RepairedChars(b, Lenient(repaired));
      if rc.None? {
        FlippedCases(b, repaired);
        assert r.message != Some(AmbiguousMsg);
      } else if rc.value.Solved? {
        assert r.message == Some(RepairedMsg);
        assert RepairedMsg != AmbiguousMsg;
      } else {
        Kinds(rc);
      }
    } else if barcode == [] {
      assert r.message == Some(EmptyMsg);
      assert EmptyMsg != AmbiguousMsg;
    } else if |CleanStr(barcode)| == 65 && Direct(b, CleanStr(barcode)).Some? {
      assert r.message == None;
    } else {
      assert r.message == Some(LengthMsg);
      assert LengthMsg != AmbiguousMsg;
    }
  }

  /** A character repair carries the highlight of the repaired barcode
      against the suggestion. */
  lemma RepairHighlighted(b: Book, barcode: string)
    requires Shaped(b)
    ensures var r := Outcome(b, barcode);
      var repaired := RepairedOf(b, barcode);
      r.highlight.Some? ==>
        r.message == Some(RepairedMsg) && |repaired| == 65 && r.fields.Some? && r.suggest.Some? &&
        RepairedChars(b, Lenient(repaired)) == Some(Solved(r.fields.value, r.suggest.value)) &&
        r.highlight.value == Highlights.Highlight(repaired, r.suggest.value)
  {
    OutcomeCases(b, barcode);
    if barcode != [] {
      RepairingCases(b, RepairedOf(b, barcode));
      FlippedCases(b, RepairedOf(b, barcode));
    }
  }
}

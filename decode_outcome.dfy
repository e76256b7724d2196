/** When `decode_chars` fails and what a success guarantees, on complete
    tables. */
module DecodeOutcome {
  import opened Wrappers
  import opened BitPatterns
  import opened Codewords
  import opened BigNum
  import opened Fcs
  import opened Decoding
  import opened DecodeFacts

  /** A character complete tables know is a 13-bit value with 2, 5, 8 or 11
      bars set. */
  predicate Valid13(c: nat)
  {
    c < Space && (Pop(c) == 2 || Pop(c) == 5 || Pop(c) == 8 || Pop(c) == 11)
  }

  /** With complete tables, a decode fails when one of the ten characters
      is not a 2-, 5-, 8- or 11-of-13 value. */
  lemma DecodeRejects(b: Book, chars: seq<nat>, i: nat)
    requires Complete(b) && |chars| >= 10 && i < 10 && !Valid13(chars[i])
    ensures Decode(b, chars) == None
  {
    KnownIff(b, chars[i]);
  }

  /** A decode that succeeds read ten characters the tables know and gives
      well-formed fields: those of the number rebuilt from codewords in
      range, whose frame check sequence matched. */
  lemma DecodeSuccess(b: Book, chars: seq<nat>)
    requires Shaped(b) && |chars| >= 10 && Decode(b, chars).Some?
    ensures AllKnown(b, chars, 10)
    ensures var cw := Words(b, chars, 10);
      cw[0] <= 1317 && cw[9] <= 1270 && cw[9] % 2 == 0 &&
      FcsOf(ToLimbs(Rebuilt(cw), 10)) == Frame(cw, FrameBits(b, chars, 10)) &&
      Decode(b, chars).value == FieldsOf(Rebuilt(cw)) &&
      WellFormed(Decode(b, chars).value)
  {
    assert AllKnown(b, chars, 10);
    var cw := Words(b, chars, 10);
    assert Decode(b, chars) == Interpret(cw, FrameBits(b, chars, 10));
    InterpretSome(cw, FrameBits(b, chars, 10));
    FieldsWellFormed(Rebuilt(cw));
  }

  /** Codewords that interpret passed the range, parity and frame checks
      and give the fields of the rebuilt number. */
  lemma InterpretSome(cw: seq<nat>, bits: nat)
    requires |cw| == 10 && Interpret(cw, bits).Some?
    ensures cw[0] <= 1317 && cw[9] <= 1270 && cw[9] % 2 == 0
    ensures FcsOf(ToLimbs(Rebuilt(cw), 10)) == Frame(cw, bits)
    ensures Interpret(cw, bits).value == FieldsOf(Rebuilt(cw))
  {
  }

  /** With complete tables, the characters known are exactly the 13-bit
      values with 2, 5, 8 or 11 bars set. */
  lemma KnownIff(b: Book, c: nat)
    requires Complete(b)
    ensures Known(b, c) <==> Valid13(c)
  {
  }
}

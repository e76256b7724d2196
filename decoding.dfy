/** What `decode_chars` computes, stated on values: the ten characters are
    looked up as codewords, the codewords are put together into one number,
    the number's frame check sequence is compared with the one the
    characters carry, and the number is split into tracking and routing
    digits. */
module Decoding {
  import opened Wrappers
  import opened Bits
  import opened BitPatterns
  import opened Codewords
  import opened BigNum
  import opened Fcs
  import opened Digits

  /** The result of a successful decode, every field a digit string. */
  datatype Fields = Fields(barcodeId: string, serviceType: string, mailerId: string,
                           serialNum: string, zip: Option<string>, plus4: Option<string>,
                           deliveryPt: Option<string>)

  /** A character the decode table has an entry for. */
  predicate Known(b: Book, c: nat)
    requires Shaped(b)
  {
    c < |b.decode| && b.decode[c].Some?
  }

  predicate AllKnown(b: Book, chars: seq<nat>, n: nat)
    requires Shaped(b) && n <= |chars|
  {
    forall i :: 0 <= i < n ==> Known(b, chars[i])
  }

  /** The codewords of the first n characters. */
  function Words(b: Book, chars: seq<nat>, n: nat): (cw: seq<nat>)
    requires Shaped(b) && n <= |chars| && AllKnown(b, chars, n)
    ensures |cw| == n
  {
    if n == 0 then [] else Words(b, chars, n - 1) + [b.decode[chars[n - 1]].value]
  }

  /** The frame-check bits the first n characters carry, bit i from
      character i. */
  function FrameBits(b: Book, chars: seq<nat>, n: nat): nat
    requires Shaped(b) && n <= |chars| && AllKnown(b, chars, n)
  {
    if n == 0 then 0 else Or(FrameBits(b, chars, n - 1), b.fcs[chars[n - 1]] * Pow2(n - 1))
  }

  /** `muladd(num, 1365, w)` for each of the middle codewords ws in turn. */
  function Horner(acc: nat, ws: seq<nat>): nat
    decreases |ws|
  {
    if ws == [] then acc else Horner((1365 * acc + ws[0]) % Power(10), ws[1..])
  }

  /** The leading codeword with the frame-check flag (659 added) taken off. */
  function Lead(cw: seq<nat>): nat
    requires |cw| == 10
  {
    if cw[0] > 658 then cw[0] - 659 else cw[0]
  }

  /** The number the ten codewords stand for: the leading codeword, then
      1365 per middle codeword, then 636 for the last one halved. */
  function Rebuilt(cw: seq<nat>): nat
    requires |cw| == 10
  {
    (636 * Horner(Lead(cw), cw[1..9]) + cw[9] / 2) % Power(10)
  }

  /** The eleven frame-check bits: ten from the characters, the eleventh
      from the leading codeword. */
  function Frame(cw: seq<nat>, bits: nat): nat
    requires |cw| == 10
  {
    if cw[0] > 658 then Or(bits, Pow2(10)) else bits
  }

  /** The 11-place routing array: the routing digits at the end, zeros before. */
  function Placed(ds: seq<nat>): (route: seq<nat>)
    requires |ds| <= 11 && IsDigits(ds)
    ensures |route| == 11 && IsDigits(route) && route[11 - |ds|..] == ds
    ensures forall i :: 0 <= i < 11 - |ds| ==> route[i] == 0
  {
    seq(11 - |ds|, _ => 0) + ds
  }

  /** The result fields, cut from the tracking and routing arrays. */
  function Format(track: seq<nat>, route: seq<nat>, pos: nat): Fields
    requires |track| == 20 && IsDigits(track) && |route| == 11 && IsDigits(route) && pos <= 11
  {
    Fields(Text(track[0..2]), Text(track[2..5]),
      if track[5] == 9 then Text(track[5..14]) else Text(track[5..11]),
      if track[5] == 9 then Text(track[14..20]) else Text(track[11..20]),
      if pos <= 6 then Some(Text(route[pos..pos + 5])) else None,
      if pos <= 2 then Some(Text(route[pos + 5..pos + 9])) else None,
      if pos == 0 then Some(Text(route[9..11])) else None)
  }

  /** The fields of the number v. */
  function FieldsOf(v: nat): Fields
  {
    var t := Track(v);
    var ds := Route(t.1, FirstGroup).0;
    Format(t.0, Placed(ds), 11 - |ds|)
  }

  /** What the routing loop leaves of the number and then ignores. */
  function Leftover(v: nat): nat
  {
    Route(Track(v).1, FirstGroup).1
  }

  /** `decode_chars` from the codewords cw and frame-check bits on: the
      range and parity checks, the number, its frame check and its fields. */
  function Interpret(cw: seq<nat>, bits: nat): Option<Fields>
    requires |cw| == 10
  {
    if cw[0] > 1317 || cw[9] > 1270 then None
    else if cw[9] % 2 == 1 then None
    else if FcsOf(ToLimbs(Rebuilt(cw), 10)) != Frame(cw, bits) then None
    else Some(FieldsOf(Rebuilt(cw)))
  }

  /** `decode_chars` on the tables b. */
  function Decode(b: Book, chars: seq<nat>): Option<Fields>
    requires Shaped(b) && (chars == [] || |chars| >= 10)
  {
    if chars == [] || !AllKnown(b, chars, 10) then None
    else Interpret(Words(b, chars, 10), FrameBits(b, chars, 10))
  }
}

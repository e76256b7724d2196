/** `decode_barcode` and `extract_zip_from_imb`: direct decoding first, then
    length repair, character repair and, last, the barcode read upside
    down. */
module Imb {
  import opened Wrappers
  import opened Codewords
  import opened Decoding
  import opened Decoder
  import opened Bars
  import opened CharRepair
  import opened Repair
  import opened LengthRepair
  import opened BarcodeRepair
  import opened Highlights

  /** The dictionary `decode_barcode` returns: the decoded fields when there
      are any, and the `message`, `suggest` and `highlight_indices` keys. */
  datatype Response = Response(fields: Option<Fields>, message: Option<string>,
                               suggest: Option<string>, highlight: Option<string>)

  const EmptyMsg: string := "Empty barcode provided"
  const LengthMsg: string := "Barcode must be 65 characters long"
  const RepairedMsg: string := "Repaired damaged barcode"
  const AmbiguousMsg: string := "Invalid barcode - multiple solutions found"
  const UpsideDownMsg: string := "Barcode seems to be upside down"
  const InvalidMsg: string := "Invalid barcode"

  /** A response carrying only a message. */
  function Failure(msg: string): Response
  {
    Response(None, Some(msg), None, None)
  }

  /** Strict conversion of a cleaned barcode followed by `decode_chars`. */
  function Direct(b: Book, clean: string): Option<Fields>
    requires Shaped(b)
  {
    match Permute(clean, true)
    case None => None
    case Some(chars) => Decode(b, chars)
  }

  /** The flipped barcode, repaired; only a decode counts. */
  function Flipped(b: Book, repaired: string): Response
    requires Shaped(b)
  {
    match Permute(FlipBarcode(repaired), false)
    case None => Failure(InvalidMsg)
    case Some(chars) =>
      match RepairedChars(b, chars)
      case Some(Solved(f, s)) => Response(Some(f), Some(UpsideDownMsg), Some(s), None)
      case _ => Failure(InvalidMsg)
  }

  /** Character repair of a 65-bar barcode: any result is returned, a decode
      with its highlight, before the flip is tried. */
  function Repairing(b: Book, repaired: string): Response
    requires Shaped(b)
  {
    match Permute(repaired, false)
    case None => Flipped(b, repaired)
    case Some(chars) =>
      match RepairedChars(b, chars)
      case Some(Solved(f, s)) => Response(Some(f), Some(RepairedMsg), Some(s), Some(Highlight(repaired, s)))
      case Some(Ambiguous) => Failure(AmbiguousMsg)
      case None => Flipped(b, repaired)
  }

  /** What `decode_barcode` returns for barcode on the tables b. */
  function Outcome(b: Book, barcode: string): Response
    requires Shaped(b)
  {
    if barcode == [] then Failure(EmptyMsg)
    else
      var clean := CleanStr(barcode);
      var direct := if |clean| == 65 then Direct(b, clean) else None;
      if direct.Some? then Response(direct, None, None, None)
      else
        var repaired := RepairedBarcode(b, clean);
        if |repaired| != 65 then Failure(LengthMsg)
        else Repairing(b, repaired)
  }

  /** What `extract_zip_from_imb` makes of a response: the ZIP code, with
      "-" and the plus-4 code when there is one. */
  function ZipOf(r: Response): Option<string>
  {
    if r.fields.Some? && r.fields.value.zip.Some? then
      if r.fields.value.plus4.Some? then Some(r.fields.value.zip.value + "-" + r.fields.value.plus4.value)
      else Some(r.fields.value.zip.value)
    else None
  }

  /** The first stage of `decode_barcode`: strict conversion and decode. */
  method DecodeDirect(t: Tables, clean: string) returns (decoded: Option<Fields>)
    requires t.Valid()
    ensures decoded == Direct(t.View(), clean)
  {
    var chars := TextToChars(clean, true);
    if chars.None? {
      return None;
    }
    decoded := DecodeChars(t, chars.value);
  }

  /** The flip stage of `decode_barcode`. */
  method DecodeFlipped(t: Tables, repaired: string) returns (r: Response)
    requires t.Valid()
    ensures r == Flipped(t.View(), repaired)
  {
    var chars := TextToChars(FlipBarcode(repaired), false);
    if chars.Some? {
      var inf := RepairChars(t, chars.value);
      if inf.Some? && inf.value.Solved? {
        return Response(Some(inf.value.fields), Some(UpsideDownMsg), Some(inf.value.suggest), None);
      }
    }
    return Failure(InvalidMsg);
  }

  /** The character-repair stage of `decode_barcode`, falling back on the
      flip. */
  method DecodeRepaired(t: Tables, repaired: string) returns (r: Response)
    requires t.Valid()
    ensures r == Repairing(t.View(), repaired)
  {
    var chars := TextToChars(repaired, false);
    if chars.Some? {
      var inf := RepairChars(t, chars.value);
      if inf.Some? {
        match inf.value
        case Solved(f, s) =>
          var h := DiffText(repaired, s);
          return Response(Some(f), Some(RepairedMsg), Some(s), Some(h));
        case Ambiguous =>
          return Failure(AmbiguousMsg);
      }
    }
    r := DecodeFlipped(t, repaired);
  }

  /** `decode_barcode`. */
  method DecodeBarcode(t: Tables, barcode: string) returns (r: Response)
    requires t.Valid()
    ensures r == Outcome(t.View(), barcode)
  {
    if barcode == [] {
      return Failure(EmptyMsg);
    }
    var clean := CleanStr(barcode);
    if |clean| == 65 {
      var decoded := DecodeDirect(t, clean);
      if decoded.Some? {
        return Response(decoded, None, None, None);
      }
    }
    var repaired := RepairBarcode(t, clean);
    if |repaired| != 65 {
      return Failure(LengthMsg);
    }
    r := DecodeRepaired(t, repaired);
  }

  /** `extract_zip_from_imb`. */
  method ExtractZipFromImb(t: Tables, imb: string) returns (zip: Option<string>)
    requires t.Valid()
    ensures zip == ZipOf(Outcome(t.View(), imb))
  {
    var decoded := DecodeBarcode(t, imb);
    zip := ZipOf(decoded);
  }
}

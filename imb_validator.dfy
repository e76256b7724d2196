/** The IMB checks applied to a column of uploaded data: the format test,
    `decode_imb`'s mapping of a decode to ZIP fields, and the rule that
    decides whether a row's decoded ZIP code matches its ZIP column. */
module ImbValidator {
  import opened Wrappers
  import opened Codewords
  import opened Decoding
  import opened Digits
  import opened Bars
  import opened DecodeFacts
  import opened Imb
  import opened ImbFacts
  import opened ImbShapes
  import opened Strings
  import Highlights

  const ImbLength: nat := 65
  const ValidChars: string := "ADTF"

  /** Every character is one of the four bar symbols, upper case. */
  predicate AllValid(s: string)
  {
    forall i :: 0 <= i < |s| ==> s[i] in ValidChars
  }

  /** `is_valid_imb_format`; None stands for a missing value. */
  function IsValidImbFormat(code: Option<string>): bool
  {
    if code.None? || code.value == "" then false
    else
      var s := Strip(code.value);
      |s| == ImbLength && AllValid(s)
  }

  /** `re.match('^[ADTF]+$', t)`: one or more bar symbols to the end, where
      `$` also matches just before a final newline. */
  predicate PatternMatch(t: string)
  {
    (t != "" && AllValid(t)) ||
    (|t| >= 2 && t[|t| - 1] == '\n' && AllValid(t[..|t| - 1]))
  }

  /** `validate_imb_format_vectorized` on a column of strings. */
  function Vectorized(series: seq<string>): (r: seq<bool>)
    ensures |r| == |series|
  {
    seq(|series|, k requires 0 <= k < |series| =>
      var t := Strip(series[k]); |t| == ImbLength && PatternMatch(t))
  }

  /** A string of n copies of c. */
  function Repeat(c: char, n: nat): (s: string)
    ensures |s| == n && forall i :: 0 <= i < n ==> s[i] == c
  {
    seq(n, _ => c)
  }

  /** The format test on the cases the test suite checks. */
  lemma FormatVectors()
    ensures IsValidImbFormat(Some(Repeat('A', 65)))
    ensures !IsValidImbFormat(Some(Repeat('A', 64)))
    ensures !IsValidImbFormat(Some(Repeat('A', 66)))
    ensures !IsValidImbFormat(Some(Repeat('A', 64) + "X"))
    ensures !IsValidImbFormat(Some(""))
    ensures !IsValidImbFormat(None)
  {
    assert !Whitespace('A') && !Whitespace('X');
    StripUnchanged(Repeat('A', 65));
    StripUnchanged(Repeat('A', 64));
    StripUnchanged(Repeat('A', 66));
    var x := Repeat('A', 64) + "X";
    StripUnchanged(x);
    assert x[64] == 'X' && 'X' !in ValidChars;
  }

  /** The column test agrees, entry by entry, with `is_valid_imb_format`:
      after stripping, the newline that `$` would let through is gone. */
  lemma VectorizedAgrees(series: seq<string>)
    ensures forall k :: 0 <= k < |series| ==> Vectorized(series)[k] == IsValidImbFormat(Some(series[k]))
  {
    forall k | 0 <= k < |series|
      ensures Vectorized(series)[k] == IsValidImbFormat(Some(series[k]))
    {
      var t := Strip(series[k]);
      var i := StripSlice(series[k]);
      assert t != [] ==> !Whitespace(t[|t| - 1]);
      assert !Whitespace('\n') ==> false;
      if series[k] == "" {
        assert t == "";
      }
    }
  }

  /** A string that passes the format test is a barcode `clean_str` leaves
      alone and strict conversion reads back exactly. */
  lemma ValidFormatConverts(code: string)
    requires IsValidImbFormat(Some(code))
    ensures var s := Strip(code);
      CleanStr(s) == s && Permute(s, true).Some? && CharsToText(Permute(s, true).value) == s
  {
    var s := Strip(code);
    assert Clean(s);
    CleanStrClean(s);
    RoundTrip(s);
  }

  /** What `decode_imb` returns: a rejection of the input, the report that
      the decoder gave nothing back, or the fields it found. */
  datatype ImbDecode =
    | Rejected(error: string)
    | Undecoded(error: string, encoded: string)
    | Accepted(encoded: string, zipCode: Option<string>, zipExt: Option<string>,
               fullZip: Option<string>, routing: Option<string>,
               barcodeId: Option<string>, serviceType: Option<string>, mailerId: Option<string>,
               serialNum: Option<string>, deliveryPt: Option<string>)

  const ErrorHead: string := "Invalid IMB "
  const CharsetError: string := ErrorHead + "encoding" + " - must contain only A, D, T, F characters"
  const UndecodedError: string := "Could not decode IMB properly"

  function LengthError(n: nat): string
  {
    ErrorHead + "length" + " - must be 65 characters (got " + Highlights.NatText(n) + ")"
  }

  /** The two rejections read differently. */
  lemma ErrorsDistinct(n: nat)
    ensures CharsetError != LengthError(n)
  {
    assert CharsetError[12] == 'e';
    assert LengthError(n)[12] == 'l';
  }

  /** A dictionary is true in a test when it has at least one key. */
  predicate Truthy(r: Response)
  {
    r.fields.Some? || r.message.Some? || r.suggest.Some? || r.highlight.Some?
  }

  /** The ZIP fields and the other decoded fields copied from a decode. */
  function Mapped(encoded: string, r: Response): ImbDecode
  {
    if !Truthy(r) then Undecoded(UndecodedError, encoded)
    else if r.fields.None? then Accepted(encoded, None, None, None, None, None, None, None, None, None)
    else
      var f := r.fields.value;
      var ext := if f.zip.Some? then f.plus4 else None;
      var full :=
        if f.zip.None? then None
        else if f.plus4.Some? then Some(f.zip.value + "-" + f.plus4.value)
        else f.zip;
      var routing :=
        if f.zip.None? then None
        else if f.plus4.Some? then Some(f.zip.value + f.plus4.value)
        else f.zip;
      Accepted(encoded, f.zip, ext, full, routing, Some(f.barcodeId), Some(f.serviceType),
               Some(f.mailerId), Some(f.serialNum), f.deliveryPt)
  }

  /** `decode_barcode` on the tables b. */
  function Decoder(b: Book): string -> Response
    requires Shaped(b)
  {
    barcode => Outcome(b, barcode)
  }

  /** What `decode_imb` relies on of `decode_barcode`: it never hands back
      an empty dictionary, and the fields it decodes are well formed. */
  ghost predicate Sound(decode: string -> Response)
  {
    forall barcode :: Truthy(decode(barcode)) &&
      (decode(barcode).fields.Some? ==> WellFormed(decode(barcode).fields.value))
  }

  /** `decode_imb` over a decoder: the character set is checked before the
      length, then the barcode goes to `decode_barcode`. */
  function DecodeImbOf(decode: string -> Response, s: string): ImbDecode
  {
    var e := Strip(s);
    if !AllValid(e) then Rejected(CharsetError)
    else if |e| != ImbLength then Rejected(LengthError(|e|))
    else Mapped(e, decode(e))
  }

  /** `decode_imb`. */
  method DecodeImb(t: Tables, s: string) returns (d: ImbDecode)
    requires t.Valid()
    ensures d == DecodeImbOf(Decoder(t.View()), s)
  {
    var e := Strip(s);
    if !AllValid(e) {
      return Rejected(CharsetError);
    }
    if |e| != ImbLength {
      return Rejected(LengthError(|e|));
    }
    var r := DecodeBarcode(t, e);
    d := Mapped(e, r);
  }

  /** `decode_barcode` never hands back an empty dictionary, and the
      fields it decodes are well formed. */
  lemma DecoderSound(b: Book)
    requires Shaped(b)
    ensures Sound(Decoder(b))
  {
    forall barcode: string
      ensures Truthy(Outcome(b, barcode)) &&
        (Outcome(b, barcode).fields.Some? ==> WellFormed(Outcome(b, barcode).fields.value))
    {
      DirectFirst(b, barcode);
      OutcomeWellFormed(b, barcode);
    }
  }

  /** The checks of `decode_imb` in order: a foreign character is reported
      first, even in a barcode of the wrong length; the length comes
      second, and the empty string fails there; every barcode that passes
      both is accepted, whatever the decoder made of it. */
  lemma DecodeImbChecks(decode: string -> Response, s: string)
    requires Sound(decode)
    ensures var d := DecodeImbOf(decode, s);
      d == Rejected(CharsetError) <==> !AllValid(Strip(s))
    ensures var d := DecodeImbOf(decode, s);
      d == Rejected(LengthError(|Strip(s)|)) <==> AllValid(Strip(s)) && |Strip(s)| != ImbLength
    ensures DecodeImbOf(decode, s).Accepted? <==> IsValidImbFormat(Some(s))
    ensures DecodeImbOf(decode, s).Accepted? ==> DecodeImbOf(decode, s).encoded == Strip(s)
    ensures DecodeImbOf(decode, "") == Rejected(LengthError(0))
  {
    var e := Strip(s);
    ErrorsDistinct(|e|);
    if s == "" {
      assert e == "";
    }
    assert Strip("") == "";
  }

  /** The ZIP fields of an accepted decode hang together: a ZIP code of five
      digits, an optional plus-4 code of four, `full_zip` with a dash
      between them and `routing` without one. */
  predicate ZipFieldsAgree(d: ImbDecode)
  {
    d.Accepted? ==>
      (d.fullZip.Some? <==> d.zipCode.Some?) && (d.routing.Some? <==> d.zipCode.Some?) &&
      (d.zipExt.Some? ==> d.zipCode.Some?) &&
      (d.zipCode.Some? ==>
        IsDigitText(d.zipCode.value) && |d.zipCode.value| == ZipDigits &&
        (d.zipExt.Some? ==> IsDigitText(d.zipExt.value) && |d.zipExt.value| == Plus4Digits) &&
        d.fullZip.value == d.zipCode.value + (if d.zipExt.Some? then "-" + d.zipExt.value else "") &&
        d.routing.value == d.zipCode.value + (if d.zipExt.Some? then d.zipExt.value else ""))
  }

  /** Copying well-formed fields gives agreeing ZIP fields, and `full_zip`
      is what `extract_zip_from_imb` makes of the same response. */
  lemma MappedAgrees(e: string, r: Response)
    requires r.fields.Some? ==> WellFormed(r.fields.value)
    ensures ZipFieldsAgree(Mapped(e, r))
    ensures Mapped(e, r).Accepted? ==> Mapped(e, r).fullZip == ZipOf(r)
    ensures Mapped(e, r).Accepted? ==> Mapped(e, r).zipCode == (if r.fields.Some? then r.fields.value.zip else None)
  {
    var d := Mapped(e, r);
    if d.Accepted? && d.zipCode.Some? && d.zipExt.Some? {
      assert d.fullZip.value == d.zipCode.value + ("-" + d.zipExt.value);
    }
  }

  /** `full_zip` is the ZIP code that `extract_zip_from_imb` gives for the
      same barcode, and the ZIP fields of `decode_imb` agree. */
  lemma DecodeImbZip(decode: string -> Response, s: string)
    requires Sound(decode)
    ensures ZipFieldsAgree(DecodeImbOf(decode, s))
    ensures var d := DecodeImbOf(decode, s);
      d.Accepted? ==> d.fullZip == ZipOf(decode(Strip(s)))
    ensures var d := DecodeImbOf(decode, s);
      var f := decode(Strip(s)).fields;
      d.Accepted? ==> d.zipCode == (if f.Some? then f.value.zip else None)
  {
    var e := Strip(s);
    if AllValid(e) && |e| == ImbLength {
      MappedAgrees(e, decode(e));
    }
  }

  /** `extract_zip_from_routing`: the first five characters, or all of a
      shorter routing code. */
  function ExtractZipFromRouting(routing: string): (zip: string)
    ensures |zip| == (if |routing| < ZipDigits then |routing| else ZipDigits)
    ensures zip == routing[..|zip|]
  {
    if routing == "" then ""
    else if |routing| >= ZipDigits then routing[..ZipDigits]
    else routing
  }

  /** The routing code of a decode is a digit string of five or nine
      digits that gives back its ZIP code. */
  lemma RoutingZip(d: ImbDecode)
    requires ZipFieldsAgree(d) && d.Accepted? && d.routing.Some?
    ensures IsDigitText(d.routing.value)
    ensures |d.routing.value| == (if d.zipExt.Some? then ZipDigits + Plus4Digits else ZipDigits)
    ensures ExtractZipFromRouting(d.routing.value) == d.zipCode.value
  {
    var r := d.routing.value;
    assert r[..ZipDigits] == d.zipCode.value;
  }

  /** The barcode whose ZIP code the lookup table gives without decoding. */
  const KnownImb: string := "TAAFFATFFDTFTFAATDTTAAFDAFDFDAFFDTTADAADTATTADTTTAADAFDDDDTTDDDTA"
  const KnownZip: string := "77382-1482"

  /** `s.split('-')[0]`: the text before the first dash. */
  function BeforeDash(s: string): (r: string)
    ensures |r| <= |s| && r == s[..|r|]
    ensures forall i :: 0 <= i < |r| ==> r[i] != '-'
    ensures |r| < |s| ==> s[|r|] == '-'
  {
    if s == [] || s[0] == '-' then [] else [s[0]] + BeforeDash(s[1..])
  }

  /** The text before the first dash, when it is at position i. */
  lemma BeforeDashAt(s: string, i: nat)
    requires i < |s| && s[i] == '-' && forall j :: 0 <= j < i ==> s[j] != '-'
    ensures BeforeDash(s) == s[..i]
  {
    var r := BeforeDash(s);
    assert |r| <= i ==> |r| == i;
  }

  /** `s[:n]`. */
  function Prefix(s: string, n: nat): (r: string)
    ensures |r| == (if |s| < n then |s| else n) && r == s[..|r|]
  {
    if |s| < n then s else s[..n]
  }

  /** The text shown in a row's `decoded_zip` column, and the ZIP code
      its check compares. */
  datatype RowZips = RowZips(shown: string, zip: string)

  /** The two ZIP columns of a row from the result of `decode_imb`. */
  function RowZipOf(d: ImbDecode): RowZips
  {
    match d
    case Accepted(_, zipCode, _, fullZip, routing, _, _, _, _, _) =>
      if fullZip.Some? && fullZip.value != "" then
        RowZips(fullZip.value, if '-' in fullZip.value then BeforeDash(fullZip.value) else Prefix(fullZip.value, ZipDigits))
      else if zipCode.Some? then RowZips(zipCode.value, zipCode.value)
      else if routing.Some? && routing.value != "" then
        RowZips(ExtractZipFromRouting(routing.value), ExtractZipFromRouting(routing.value))
      else RowZips("N/A", "")
    case _ => RowZips("N/A", "")
  }

  /** The row's `decoded_zip` column and the ZIP code its check compares,
      for an IMB code that passed the format test and has been stripped:
      the lookup table is consulted before the decoder. */
  function RowZip(decode: string -> Response, imb: string): RowZips
  {
    if imb == KnownImb then RowZips(KnownZip, if '-' in KnownZip then BeforeDash(KnownZip) else KnownZip)
    else RowZipOf(DecodeImbOf(decode, imb))
  }

  /** The barcode in the lookup table is reported as 77382-1482 and
      compared as 77382. */
  lemma KnownRow(decode: string -> Response)
    ensures RowZip(decode, KnownImb) == RowZips("77382-1482", "77382")
  {
    assert KnownZip[5] == '-';
    assert KnownZip[0] != '-' && KnownZip[1] != '-' && KnownZip[2] != '-' && KnownZip[3] != '-' && KnownZip[4] != '-';
    BeforeDashAt(KnownZip, 5);
  }

  /** A decode with agreeing ZIP fields is compared on its ZIP code, or not
      at all when it has none, and shows `full_zip` or "N/A". */
  lemma RowZipOfAgrees(d: ImbDecode)
    requires ZipFieldsAgree(d)
    ensures RowZipOf(d).zip == (if d.Accepted? && d.zipCode.Some? then d.zipCode.value else "")
    ensures RowZipOf(d).shown == (if d.Accepted? && d.fullZip.Some? then d.fullZip.value else "N/A")
  {
    if d.Accepted? && d.zipCode.Some? {
      var v := d.fullZip.value;
      var z := d.zipCode.value;
      assert v[..ZipDigits] == z;
      assert forall i :: 0 <= i < ZipDigits ==> v[i] != '-';
      if d.zipExt.Some? {
        assert v[ZipDigits] == '-';
        assert '-' in v;
        assert |BeforeDash(v)| == ZipDigits;
      } else {
        assert v == z;
        assert '-' !in v;
      }
    }
  }

  /** Any barcode other than the one in the lookup table is compared on
      the ZIP code `decode_imb` found for it, or not at all when there is
      none, and shows the `full_zip` it found, or "N/A". */
  lemma RowZipDecoded(decode: string -> Response, imb: string)
    requires Sound(decode) && imb != KnownImb
    ensures var d := DecodeImbOf(decode, imb);
      RowZip(decode, imb).zip == (if d.Accepted? && d.zipCode.Some? then d.zipCode.value else "")
    ensures var d := DecodeImbOf(decode, imb);
      RowZip(decode, imb).shown == (if d.Accepted? && d.fullZip.Some? then d.fullZip.value else "N/A")
  {
    DecodeImbZip(decode, imb);
    RowZipOfAgrees(DecodeImbOf(decode, imb));
  }

  /** The comparison of a row: the first five characters of the stripped
      ZIP column and of the decoded ZIP code, both non-empty and equal. */
  predicate ZipMatch(csvZip: string, decoded: string)
  {
    decoded != "" &&
    var orig := Prefix(Strip(csvZip), ZipDigits);
    var mine := Prefix(decoded, ZipDigits);
    orig != "" && mine != "" && orig == mine
  }

  /** Whether row k counts as a ZIP match; zips is the ZIP column, when
      there is one. */
  predicate RowMatch(decode: string -> Response, imbs: seq<string>, zips: Option<seq<string>>, k: nat)
    requires k < |imbs| && (zips.Some? ==> |zips.value| == |imbs|)
  {
    Vectorized(imbs)[k] && zips.Some? && ZipMatch(zips.value[k], RowZip(decode, Strip(imbs[k])).zip)
  }

  /** The number of rows below n that pass the format test. */
  function ValidCount(imbs: seq<string>, n: nat): nat
    requires n <= |imbs|
  {
    if n == 0 then 0 else ValidCount(imbs, n - 1) + (if Vectorized(imbs)[n - 1] then 1 else 0)
  }

  /** The number of rows below n that count as ZIP matches. */
  function MatchCount(decode: string -> Response, imbs: seq<string>, zips: Option<seq<string>>, n: nat): nat
    requires n <= |imbs| && (zips.Some? ==> |zips.value| == |imbs|)
  {
    if n == 0 then 0 else MatchCount(decode, imbs, zips, n - 1) + (if RowMatch(decode, imbs, zips, n - 1) then 1 else 0)
  }

  /** Only rows that pass the format test are matched, so there are never
      more matches than valid IMB codes, and none without a ZIP column. */
  lemma {:induction false} MatchesWithinValid(decode: string -> Response, imbs: seq<string>, zips: Option<seq<string>>, n: nat)
    requires n <= |imbs| && (zips.Some? ==> |zips.value| == |imbs|)
    ensures MatchCount(decode, imbs, zips, n) <= ValidCount(imbs, n)
    ensures zips.None? ==> MatchCount(decode, imbs, zips, n) == 0
  {
    if n > 0 {
      MatchesWithinValid(decode, imbs, zips, n - 1);
    }
  }

  /** A matching row has a decoded ZIP code whose first five characters are
      the first five of its stripped ZIP column. */
  lemma MatchMeans(decode: string -> Response, imbs: seq<string>, zips: Option<seq<string>>, k: nat)
    requires k < |imbs| && (zips.Some? ==> |zips.value| == |imbs|)
    ensures RowMatch(decode, imbs, zips, k) <==>
      IsValidImbFormat(Some(imbs[k])) && zips.Some? &&
      var z := RowZip(decode, Strip(imbs[k])).zip;
      var c := Strip(zips.value[k]);
      z != "" && c != "" && Prefix(c, ZipDigits) == Prefix(z, ZipDigits)
  {
    VectorizedAgrees(imbs);
  }

  /** The two ZIP columns of one valid row. */
  method DecodeRow(t: Tables, imb: string) returns (shown: string, zip: string)
    requires t.Valid()
    ensures RowZips(shown, zip) == RowZip(Decoder(t.View()), imb)
  {
    if imb == KnownImb {
      shown := KnownZip;
      zip := if '-' in KnownZip then BeforeDash(KnownZip) else KnownZip;
      return;
    }
    var d := DecodeImb(t, imb);
    var r := RowZipOf(d);
    shown, zip := r.shown, r.zip;
  }

  /** What row k shows in the `decoded_zip` column: nothing for a row
      that failed the format test. */
  function ShownAt(decode: string -> Response, imbs: seq<string>, k: nat): string
    requires k < |imbs|
  {
    if Vectorized(imbs)[k] then RowZip(decode, Strip(imbs[k])).shown else ""
  }

  /** The first n entries of the `decoded_zip` column. */
  function ShownColumn(decode: string -> Response, imbs: seq<string>, n: nat): (col: seq<string>)
    requires n <= |imbs|
    ensures |col| == n
  {
    if n == 0 then [] else ShownColumn(decode, imbs, n - 1) + [ShownAt(decode, imbs, n - 1)]
  }

  /** The first n entries of the `zip_match` column. */
  function MatchColumn(decode: string -> Response, imbs: seq<string>, zips: Option<seq<string>>, n: nat): (col: seq<bool>)
    requires n <= |imbs| && (zips.Some? ==> |zips.value| == |imbs|)
    ensures |col| == n
  {
    if n == 0 then [] else MatchColumn(decode, imbs, zips, n - 1) + [RowMatch(decode, imbs, zips, n - 1)]
  }

  /** Entry j of the columns is the entry for row j. */
  lemma {:induction false} ColumnsAt(decode: string -> Response, imbs: seq<string>, zips: Option<seq<string>>, n: nat, j: nat)
    requires j < n <= |imbs| && (zips.Some? ==> |zips.value| == |imbs|)
    ensures ShownColumn(decode, imbs, n)[j] == ShownAt(decode, imbs, j)
    ensures MatchColumn(decode, imbs, zips, n)[j] == RowMatch(decode, imbs, zips, j)
  {
    if j < n - 1 {
      ColumnsAt(decode, imbs, zips, n - 1, j);
    }
  }

  /** The first k rows of the `decoded_zip` and `zip_match` columns, with
      the two counts over them. */
  predicate Scanned(decode: string -> Response, imbs: seq<string>, zips: Option<seq<string>>, k: nat,
                    valid: nat, matching: nat, shown: seq<string>, matched: seq<bool>)
    requires k <= |imbs| && (zips.Some? ==> |zips.value| == |imbs|)
  {
    valid == ValidCount(imbs, k) && matching == MatchCount(decode, imbs, zips, k) &&
    shown == ShownColumn(decode, imbs, k) && matched == MatchColumn(decode, imbs, zips, k)
  }

  /** One more row scanned. */
  lemma ScanStep(decode: string -> Response, imbs: seq<string>, zips: Option<seq<string>>, k: nat,
                 valid: nat, matching: nat, shown: seq<string>, matched: seq<bool>, text: string, hit: bool)
    requires k < |imbs| && (zips.Some? ==> |zips.value| == |imbs|)
    requires Scanned(decode, imbs, zips, k, valid, matching, shown, matched)
    requires hit == RowMatch(decode, imbs, zips, k) && text == ShownAt(decode, imbs, k)
    ensures Scanned(decode, imbs, zips, k + 1,
                    valid + (if Vectorized(imbs)[k] then 1 else 0), matching + (if hit then 1 else 0),
                    shown + [text], matched + [hit])
  {
  }

  /** The work of the loop on row k: the row's `decoded_zip` text and
      whether it matches. */
  method CheckRow(t: Tables, imbs: seq<string>, zips: Option<seq<string>>, ok: seq<bool>, k: nat)
    returns (text: string, hit: bool)
    requires t.Valid() && k < |imbs| && (zips.Some? ==> |zips.value| == |imbs|) && ok == Vectorized(imbs)
    ensures hit == RowMatch(Decoder(t.View()), imbs, zips, k)
    ensures text == ShownAt(Decoder(t.View()), imbs, k)
  {
    text, hit := "", false;
    if ok[k] {
      var zip;
      text, zip := DecodeRow(t, Strip(imbs[k]));
      if zips.Some? && zip != "" {
        hit := ZipMatch(zips.value[k], zip);
      }
    }
  }

  /** The per-row loop of `validate_imb_column`: the `decoded_zip` and
      `zip_match` columns and the two counts. */
  method ValidateImbColumn(t: Tables, imbs: seq<string>, zips: Option<seq<string>>)
    returns (valid: nat, matching: nat, shown: seq<string>, matched: seq<bool>)
    requires t.Valid() && (zips.Some? ==> |zips.value| == |imbs|)
    ensures Scanned(Decoder(t.View()), imbs, zips, |imbs|, valid, matching, shown, matched)
    ensures matching <= valid
  {
    var ok := Vectorized(imbs);
    valid, matching, shown, matched := 0, 0, [], [];
    for k := 0 to |imbs|
      invariant Scanned(Decoder(t.View()), imbs, zips, k, valid, matching, shown, matched)
    {
      var text, hit := CheckRow(t, imbs, zips, ok, k);
      ScanStep(Decoder(t.View()), imbs, zips, k, valid, matching, shown, matched, text, hit);
      if ok[k] {
        valid := valid + 1;
      }
      if hit {
        matching := matching + 1;
      }
      shown, matched := shown + [text], matched + [hit];
    }
    MatchesWithinValid(Decoder(t.View()), imbs, zips, |imbs|);
  }
}

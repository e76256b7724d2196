/** `try_repair` and `repair_chars` as the source runs them: a recursive
    search that writes the candidate of each position into one shared
    array, and a loop that collects the candidates and their running
    product. */
module Repair {
  import opened Wrappers
  import opened Bits
  import opened BitPatterns
  import opened Codewords
  import opened Decoding
  import opened Decoder
  import opened Bars
  import opened CharRepair

  /** `try_repair(possible, chars, pos)`: chars[..pos] holds the candidates
      chosen above; positions pos and later are scratch. */
  method TryRepair(t: Tables, possible: seq<seq<nat>>, chars: array<nat>, pos: nat) returns (inf: Option<Repaired>)
    requires t.Valid() && |possible| == 10 && chars.Length == 10 && pos < 10
    requires chars != t.encode && chars != t.fcs
    modifies chars
    ensures chars[..pos] == old(chars[..pos])
    ensures inf == Try(t.View(), possible, old(chars[..pos]), 0, None)
    decreases 10 - pos
  {
    ghost var b := t.View();
    ghost var prefix := chars[..pos];
    inf := None;
    var p := possible[pos];
    var n := 0;
    while n < |p|
      invariant n <= |p| && chars[..pos] == prefix && t.View() == b
      invariant Try(b, possible, prefix, 0, None) == Try(b, possible, prefix, n, inf)
    {
      chars[pos] := p[n];
      assert chars[..pos + 1] == prefix + [p[n]];
      var newinf;
      if pos < 9 {
        newinf := TryRepair(t, possible, chars, pos + 1);
        assert chars[..pos] == chars[..pos + 1][..pos];
      } else {
        assert chars[..] == chars[..pos + 1];
        var decoded := DecodeChars(t, chars[..]);
        if decoded.Some? {
          newinf := Some(Solved(decoded.value, CharsToText(chars[..])));
        } else {
          newinf := None;
        }
      }
      assert newinf == if pos < 9 then Try(b, possible, prefix + [p[n]], 0, None) else Leaf(b, prefix + [p[n]]);
      TryStep(b, possible, prefix, n, inf, newinf);
      if newinf.Some? {
        if inf.Some? {
          return Some(Ambiguous);
        }
        inf := newinf;
      }
      n := n + 1;
    }
  }

  /** The candidates for character c: itself when the table knows it,
      otherwise each known character one bit flip away, in bit order. */
  method OptionsOf(t: Tables, c: nat) returns (opts: seq<nat>)
    requires t.Valid()
    ensures opts == Options(t.View(), c)
  {
    if c >= t.decode.Length || t.decode[c].None? {
      opts := [];
      for bit := 0 to Width
        invariant opts == Flips(t.View(), c, bit)
      {
        var d := Xor(c, Pow2(bit));
        if d < t.decode.Length && t.decode[d].Some? {
          opts := opts + [d];
        }
      }
    } else {
      opts := [c];
    }
  }

  /** `repair_chars`: the candidates of the ten characters, giving up when
      the running product is 0 or above 1000, then the search. */
  method RepairChars(t: Tables, chars: seq<nat>) returns (r: Option<Repaired>)
    requires t.Valid() && |chars| >= 10
    ensures r == RepairedChars(t.View(), chars)
  {
    ghost var b := t.View();
    var possible: seq<seq<nat>> := [];
    var prod := 1;
    for n := 0 to NumChars
      invariant possible == Possible(b, chars, n) && prod == Prod(b, chars, n)
      invariant !Stops(b, chars, n)
    {
      var opts := OptionsOf(t, chars[n]);
      possible := possible + [opts];
      prod := prod * |opts|;
      if prod == 0 || prod > 1000 {
        StopsLater(b, chars, n + 1, NumChars);
        return None;
      }
    }
    var newchars := new nat[10](_ => 0);
    r := TryRepair(t, possible, newchars, 0);
  }
}

/** `decode_chars` as the source runs it: codewords into `cw`, the number
    into the limb array `num`, digits into `track` and `route` with a moving
    `pos`. */
module Decoder {
  import opened Wrappers
  import opened Bits
  import opened Codewords
  import opened BigNum
  import opened Fcs
  import opened Digits
  import opened Decoding

  /** The lookup loop: the codeword and frame-check bit of each of the ten
      characters, stopping at the first character the table does not know. */
  method ReadWords(t: Tables, chars: seq<nat>) returns (ok: bool, cw: array<nat>, fcs: nat)
    requires t.Valid() && |chars| >= 10
    ensures fresh(cw) && cw.Length == 10
    ensures ok == AllKnown(t.View(), chars, 10)
    ensures ok ==> cw[..] == Words(t.View(), chars, 10) && fcs == FrameBits(t.View(), chars, 10)
  {
    cw := new nat[10](_ => 0);
    fcs := 0;
    for n := 0 to 10
      invariant AllKnown(t.View(), chars, n)
      invariant cw[..n] == Words(t.View(), chars, n)
      invariant fcs == FrameBits(t.View(), chars, n)
    {
      var c := chars[n];
      if c >= t.decode.Length || t.decode[c].None? {
        return false, cw, fcs;
      }
      cw[n] := t.decode[c].value;
      fcs := Or(fcs, t.fcs[c] * Pow2(n));   // fcs |= FCS_TABLE[c] << n
      assert cw[..n + 1] == cw[..n] + [cw[n]];
    }
    assert cw[..] == cw[..10];
    ok := true;
  }

  /** Put the codewords together: the leading one in the lowest limb, then
      `muladd` by 1365 for each middle codeword and by 636 for the last. */
  method Rebuild(cw: array<nat>) returns (num: array<nat>)
    requires cw.Length == 10 && cw[0] < 2048
    ensures fresh(num) && num.Length == 10 && Limbs(num[..])
    ensures Value(num[..]) == (636 * Horner(cw[0], cw[1..9]) + cw[9]) % Power(10)
  {
    num := new nat[10](_ => 0);
    num[9] := cw[0];
    ZeroValue(num[..9]);
    assert num[..][..9] == num[..9];
    for n := 1 to 9
      invariant Horner(Value(num[..]), cw[n..9]) == Horner(cw[0], cw[1..9])
    {
      assert cw[n..9] == [cw[n]] + cw[n + 1..9];
      MulAdd(num, 1365, cw[n]);
    }
    MulAdd(num, 636, cw[9]);
  }

  /** The tracking loop: 18 digits by `divmod(num, 10)` into `track[19]`
      down to `track[2]`, then `track[1]` by 5 and `track[0]` by 10. */
  method Tracking(num: array<nat>) returns (track: array<nat>)
    requires num.Length == 10 && Limbs(num[..])
    modifies num
    ensures fresh(track) && track.Length == TrackLow + 2 && Limbs(num[..])
    ensures (track[..], Value(num[..])) == Track(old(Value(num[..])))
  {
    ghost var v := Value(num[..]);
    track := new nat[20](_ => 0);
    var n := 19;
    assert track[20..] == [];
    while n > 1
      invariant 1 <= n <= 19 && Limbs(num[..])
      invariant (track[n + 1..], Value(num[..])) == Peel(v, 19 - n)
    {
      var d := DivMod(num, 10);
      track[n] := d;
      assert track[n..] == [d] + track[n + 1..];
      n := n - 1;
    }
    var d1 := DivMod(num, 5);
    track[1] := d1;
    var d0 := DivMod(num, 10);
    track[0] := d0;
    assert track[..] == [d0, d1] + track[2..];
  }

  /** One routing group: sz digits by `divmod(num, 10)`, each written one
      place further down from `pos`. */
  method Group(num: array<nat>, route: array<nat>, pos0: nat, sz: nat, ghost w: nat) returns (pos: nat)
    requires num.Length == 10 && Limbs(num[..]) && Value(num[..]) == w && route.Length == 11
    requires num != route && sz <= pos0 <= 11
    modifies num, route
    ensures pos == pos0 - sz && Limbs(num[..])
    ensures route[pos..pos0] == Peel(w, sz).0 && Value(num[..]) == Peel(w, sz).1
    ensures route[pos0..] == old(route[pos0..]) && route[..pos] == old(route[..pos])
  {
    pos := pos0;
    var n := 0;
    assert route[pos..pos0] == [];
    while n < sz
      invariant n <= sz && pos == pos0 - n && Limbs(num[..])
      invariant route[pos..pos0] == Peel(w, n).0 && Value(num[..]) == Peel(w, n).1
      invariant route[pos0..] == old(route[pos0..]) && route[..pos] == old(route[..pos])
    {
      pos := pos - 1;
      var d := DivMod(num, 10);
      route[pos] := d;
      assert route[pos..pos0] == [d] + route[pos + 1..pos0];
      n := n + 1;
    }
  }

  /** `add(num, -1)` and then one routing group, on a non-zero number. */
  method TakeGroup(num: array<nat>, route: array<nat>, pos0: nat, sz: nat, ghost v: nat)
    returns (pos: nat)
    requires num.Length == 10 && Limbs(num[..]) && Value(num[..]) == v && v > 0
    requires route.Length == 11 && num != route && sz <= pos0 <= 11
    modifies num, route
    ensures pos == pos0 - sz && Limbs(num[..])
    ensures route[pos..pos0] == Peel(v - 1, sz).0 && Value(num[..]) == Peel(v - 1, sz).1
    ensures route[pos0..] == old(route[pos0..]) && route[..pos] == old(route[..pos])
  {
    ghost var before := num[..];
    Add(num, -1);
    Decrement(before, num[..]);
    pos := Group(num, route, pos0, sz, v - 1);
  }

  /** The state of the routing loop before group size sz: the digits found
      so far sit in route[pos..], zeros before them, and the rest of the
      loop on the number v finishes the routing of r0. */
  ghost predicate Routed(r0: nat, v: nat, sz: nat, route: seq<nat>, pos: nat)
  {
    sz <= FirstGroup && |route| == 11 && Room(sz) <= pos <= 11 &&
    (forall i :: 0 <= i < pos ==> route[i] == 0) &&
    Route(r0, FirstGroup) == (Route(v, sz).0 + route[pos..], Route(v, sz).1)
  }

  lemma RoutedStart(r0: nat, route: seq<nat>)
    requires |route| == 11 && forall i :: 0 <= i < 11 ==> route[i] == 0
    ensures Routed(r0, r0, FirstGroup, route, 11)
  {
    assert Route(r0, FirstGroup).0 + route[11..] == Route(r0, FirstGroup).0;
  }

  /** One group taken off keeps the loop state. */
  lemma RoutedGroup(r0: nat, v: nat, sz: nat, route: seq<nat>, pos: nat,
                    route': seq<nat>, pos': nat, q: nat)
    requires Routed(r0, v, sz, route, pos) && v > 0 && sz >= 2 && sz != 3
    requires sz <= pos && pos' == pos - sz && |route'| == 11
    requires route'[..pos'] == route[..pos'] && route'[pos..] == route[pos..]
    requires route'[pos'..pos] == Peel(v - 1, sz).0 && q == Peel(v - 1, sz).1
    ensures Routed(r0, q, sz - 1, route', pos')
  {
    RouteGroup(v, sz);
    var g := Peel(v - 1, sz).0;
    var rest := Route(q, sz - 1);
    assert Route(v, sz).0 == rest.0 + g;
    assert route'[pos'..] == g + route[pos..] by {
      assert route'[pos'..] == route'[pos'..pos] + route'[pos..];
    }
    calc {
      Route(r0, FirstGroup).0;
      Route(v, sz).0 + route[pos..];
      (rest.0 + g) + route[pos..];
      rest.0 + (g + route[pos..]);
      rest.0 + route'[pos'..];
    }
    forall i | 0 <= i < pos'
      ensures route'[i] == 0
    {
      assert route'[i] == route'[..pos'][i];
    }
  }

  lemma RoutedSkip(r0: nat, v: nat, route: seq<nat>, pos: nat)
    requires Routed(r0, v, 3, route, pos)
    ensures Routed(r0, v, 2, route, pos)
  {
    RouteSkip(v);
  }

  /** Leaving the loop, after the last group or at zero, the digits found
      are all the routing digits. */
  lemma RoutedDone(r0: nat, v: nat, sz: nat, route: seq<nat>, pos: nat)
    requires Routed(r0, v, sz, route, pos) && (sz < 2 || v == 0)
    ensures pos == 11 - |Route(r0, FirstGroup).0|
    ensures route == Placed(Route(r0, FirstGroup).0)
  {
    RouteEnd(v, sz);
    assert route[pos..] == Route(r0, FirstGroup).0;
    assert route == route[..pos] + route[pos..];
  }

  /** The routing loop: for group sizes 5, 4 and 2 (3 is skipped), stop at
      zero, else take 1 off and peel the group's digits into `route`. */
  method Routing(num: array<nat>) returns (route: array<nat>, pos: nat)
    requires num.Length == 10 && Limbs(num[..])
    modifies num
    ensures fresh(route) && route.Length == 11
    ensures pos == 11 - |Route(old(Value(num[..])), FirstGroup).0|
    ensures route[..] == Placed(Route(old(Value(num[..])), FirstGroup).0)
  {
    ghost var r0 := Value(num[..]);
    route := new nat[11](_ => 0);
    pos := 11;
    var sz: nat := FirstGroup;   // for sz in range(5, 1, -1)
    RoutedStart(r0, route[..]);
    while sz > 1
      invariant Routed(r0, Value(num[..]), sz, route[..], pos) && Limbs(num[..])
    {
      if sz != 3 {
        var zero := IsZero(num);
        if zero {
          break;
        }
        ghost var v, r1 := Value(num[..]), route[..];
        var pos0 := pos;
        pos := TakeGroup(num, route, pos, sz, v);
        RoutedGroup(r0, v, sz, r1, pos0, route[..], pos, Value(num[..]));
      } else {
        RoutedSkip(r0, Value(num[..]), route[..], pos);
      }
      sz := sz - 1;
    }
    RoutedDone(r0, Value(num[..]), sz, route[..], pos);
  }

  /** The tracking and routing loops and the formatting of the result. */
  method FieldsFrom(num: array<nat>) returns (f: Fields)
    requires num.Length == 10 && Limbs(num[..])
    modifies num
    ensures f == FieldsOf(old(Value(num[..])))
  {
    ghost var v := Value(num[..]);
    var track := Tracking(num);
    ghost var t := Track(v);
    var route, pos := Routing(num);
    ghost var ds := Route(t.1, FirstGroup).0;
    assert track[..] == t.0 && route[..] == Placed(ds) && pos == 11 - |ds|;
    f := Format(track[..], route[..], pos);
  }

  /** The flag on the leading codeword and the orientation bit on the last
      one taken off, and the codewords put together into one number. */
  method Combine(cw: array<nat>, bits: nat) returns (num: array<nat>, fcs: nat)
    requires cw.Length == 10 && cw[0] <= 1317
    modifies cw
    ensures fresh(num) && num.Length == 10 && Limbs(num[..])
    ensures Value(num[..]) == Rebuilt(old(cw[..])) && fcs == Frame(old(cw[..]), bits)
  {
    ghost var words := cw[..];
    fcs := bits;
    cw[9] := cw[9] / 2;   // cw[9] >>= 1
    if cw[0] > 658 {
      cw[0] := cw[0] - 659;
      fcs := Or(fcs, Pow2(10));   // fcs |= 1 << 10
    }
    assert cw[1..9] == words[1..9] && cw[0] == Lead(words) && cw[9] == words[9] / 2;
    num := Rebuild(cw);
    RebuiltFrom(words, cw[..]);
  }

  /** Codewords with the leading one reduced and the last one halved give
      the number the original codewords stand for. */
  lemma RebuiltFrom(words: seq<nat>, c: seq<nat>)
    requires |words| == 10 && |c| == 10
    requires c[1..9] == words[1..9] && c[0] == Lead(words) && c[9] == words[9] / 2
    ensures (636 * Horner(c[0], c[1..9]) + c[9]) % Power(10) == Rebuilt(words)
  {
  }

  /** `decode_chars` once the ten codewords and frame-check bits are read. */
  method InterpretWords(cw: array<nat>, bits: nat) returns (r: Option<Fields>)
    requires cw.Length == 10
    modifies cw
    ensures r == Interpret(old(cw[..]), bits)
  {
    if cw[0] > 1317 || cw[9] > 1270 {
      return None;
    }
    if cw[9] % 2 == 1 {   // cw[9] & 1: an upside-down barcode
      return None;
    }
    var num, fcs := Combine(cw, bits);
    ghost var v := Value(num[..]);
    var check := CalcFcs(num);
    LimbsUnique(num[..]);
    if check != fcs {
      return None;
    }
    var f := FieldsFrom(num);
    r := Some(f);
  }

  /** `decode_chars`. */
  method DecodeChars(t: Tables, chars: seq<nat>) returns (r: Option<Fields>)
    requires t.Valid() && (chars == [] || |chars| >= 10)
    ensures r == Decode(t.View(), chars)
  {
    if chars == [] {
      return None;
    }
    var ok, cw, fcs := ReadWords(t, chars);
    if !ok {
      return None;
    }
    r := InterpretWords(cw, fcs);
  }
}

/** The `highlight_indices` text of a repaired barcode: the positions where
    the barcode and its suggestion differ, in decimal, separated by commas. */
module Highlights {
  import opened Digits

  /** `str(n)`: the decimal text of n, with no leading zero. */
  function NatText(n: nat): (s: string)
    ensures |s| >= 1 && IsDigitText(s)
    ensures s[0] == '0' ==> n == 0
  {
    if n < 10 then [Digit(n)] else NatText(n / 10) + [Digit(n % 10)]
  }

  /** The decimal text reads back as n. */
  lemma {:induction false} NatTextValue(n: nat)
    ensures Decimal(DigitsOf(NatText(n))) == n
  {
    if n < 10 {
      assert DigitsOf(NatText(n)) == [n];
      DecimalOne(n);
    } else {
      var hi := DigitsOf(NatText(n / 10));
      assert DigitsOf(NatText(n)) == hi + [n % 10];
      NatTextValue(n / 10);
      DecimalConcat(hi, [n % 10]);
      DecimalOne(n % 10);
    }
  }

  /** The positions below n where a and s differ, in ascending order. */
  function Diffs(a: string, s: string, n: nat): seq<nat>
    requires n <= |a| && n <= |s|
  {
    if n == 0 then [] else Diffs(a, s, n - 1) + (if a[n - 1] != s[n - 1] then [n - 1] else [])
  }

  predicate Ascending(ps: seq<nat>)
  {
    forall i, j :: 0 <= i < j < |ps| ==> ps[i] < ps[j]
  }

  /** Diffs lists exactly the differing positions, each once, ascending. */
  lemma {:induction false} DiffsExactly(a: string, s: string, n: nat)
    requires n <= |a| && n <= |s|
    ensures forall i: nat :: i in Diffs(a, s, n) <==> i < n && a[i] != s[i]
    ensures Ascending(Diffs(a, s, n))
  {
    if n > 0 {
      DiffsExactly(a, s, n - 1);
      var ps := Diffs(a, s, n - 1);
      var tail := if a[n - 1] != s[n - 1] then [n - 1] else [];
      assert Diffs(a, s, n) == ps + tail;
      forall k | 0 <= k < |ps| ensures ps[k] < n - 1 {
        assert ps[k] in ps;
      }
    }
  }

  /** The text the loop builds: each position followed by a comma. */
  function Listed(ps: seq<nat>): string
  {
    if ps == [] then "" else Listed(ps[..|ps| - 1]) + NatText(ps[|ps| - 1]) + ","
  }

  /** The listed text with its final comma dropped. */
  function Joined(ps: seq<nat>): string
  {
    var l := Listed(ps);
    if l == [] then "" else l[..|l| - 1]
  }

  /** The highlight of barcode a against suggestion s, over their common
      length. */
  function Highlight(a: string, s: string): string
  {
    var n := if |a| <= |s| then |a| else |s|;
    Joined(Diffs(a, s, n))
  }

  /** `str.split(',')`. */
  function Split(s: string): (r: seq<string>)
    ensures |r| >= 1
  {
    if s == [] then [""]
    else
      var r := Split(s[..|s| - 1]);
      if s[|s| - 1] == ',' then r + [""]
      else r[..|r| - 1] + [r[|r| - 1] + [s[|s| - 1]]]
  }

  predicate NoComma(t: string)
  {
    forall i :: 0 <= i < |t| ==> t[i] != ','
  }

  /** Text with no comma extends the last piece. */
  lemma {:induction false} SplitExtend(p: string, t: string)
    requires NoComma(t)
    ensures var r := Split(p);
      Split(p + t) == r[..|r| - 1] + [r[|r| - 1] + t]
    decreases |t|
  {
    var r := Split(p);
    if t == [] {
      assert p + t == p;
      assert r[|r| - 1] + t == r[|r| - 1];
      assert r[..|r| - 1] + [r[|r| - 1]] == r;
    } else {
      var init := t[..|t| - 1];
      var c := t[|t| - 1];
      assert (p + t)[..|p + t| - 1] == p + init;
      assert (p + t)[|p + t| - 1] == c && c != ',';
      SplitExtend(p, init);
      var q := Split(p + init);
      assert q == r[..|r| - 1] + [r[|r| - 1] + init];
      assert Split(p + t) == q[..|q| - 1] + [q[|q| - 1] + [c]];
      assert q[..|q| - 1] == r[..|r| - 1];
      assert q[|q| - 1] + [c] == r[|r| - 1] + t;
    }
  }

  /** The text of each position. */
  function Texts(ps: seq<nat>): (r: seq<string>)
    ensures |r| == |ps| && forall i :: 0 <= i < |ps| ==> r[i] == NatText(ps[i])
  {
    if ps == [] then [] else Texts(ps[..|ps| - 1]) + [NatText(ps[|ps| - 1])]
  }

  lemma DigitsNoComma(n: nat)
    ensures NoComma(NatText(n))
  {
  }

  /** The listed text splits into the position texts and a final empty
      piece. */
  lemma {:induction false} SplitListed(ps: seq<nat>)
    ensures Split(Listed(ps)) == Texts(ps) + [""]
  {
    if ps != [] {
      var init := ps[..|ps| - 1];
      var t := NatText(ps[|ps| - 1]);
      SplitListed(init);
      DigitsNoComma(ps[|ps| - 1]);
      SplitExtend(Listed(init), t);
      var r := Texts(init) + [""];
      assert Split(Listed(init) + t) == Texts(init) + [t] by {
        assert r[..|r| - 1] == Texts(init);
        assert r[|r| - 1] + t == t;
      }
      var l := Listed(init) + t + ",";
      assert Listed(ps) == l;
      assert l[..|l| - 1] == Listed(init) + t;
      assert l[|l| - 1] == ',';
      assert Split(l) == Split(Listed(init) + t) + [""];
      assert Texts(ps) == Texts(init) + [t];
    }
  }

  /** The highlight splits back into the texts of the positions, and is
      empty exactly when there are none. */
  lemma JoinedSplits(ps: seq<nat>)
    ensures Joined(ps) == "" <==> ps == []
    ensures ps != [] ==> Split(Joined(ps)) == Texts(ps)
  {
    if ps != [] {
      SplitListed(ps);
      var l := Listed(ps);
      var init := ps[..|ps| - 1];
      assert l == Listed(init) + NatText(ps[|ps| - 1]) + ",";
      assert Joined(ps) == Listed(init) + NatText(ps[|ps| - 1]);
      assert l == Joined(ps) + ",";
      var r := Split(Joined(ps));
      assert Split(l) == r + [""];
      assert Texts(ps) + [""] == r + [""];
      assert Texts(ps) == (Texts(ps) + [""])[..|ps|];
    }
  }

  /** Equal texts are equal numbers. */
  lemma NatTextInjective(i: nat, j: nat)
    requires NatText(i) == NatText(j)
    ensures i == j
  {
    NatTextValue(i);
    NatTextValue(j);
  }

  /** A number's text is among the texts of ps exactly when the number is
      in ps. */
  lemma TextsMembers(ps: seq<nat>)
    ensures forall i: nat :: NatText(i) in Texts(ps) <==> i in ps
  {
    forall i: nat ensures NatText(i) in Texts(ps) <==> i in ps {
      if NatText(i) in Texts(ps) {
        var k :| 0 <= k < |ps| && Texts(ps)[k] == NatText(i);
        NatTextInjective(i, ps[k]);
      }
      if i in ps {
        var k :| 0 <= k < |ps| && ps[k] == i;
        assert Texts(ps)[k] == NatText(i);
      }
    }
  }

  /** Each text reads back as its number. */
  lemma TextsValues(ps: seq<nat>)
    ensures forall k :: 0 <= k < |ps| ==> IsDigitText(Texts(ps)[k]) && Decimal(DigitsOf(Texts(ps)[k])) == ps[k]
  {
    forall k | 0 <= k < |ps| ensures IsDigitText(Texts(ps)[k]) && Decimal(DigitsOf(Texts(ps)[k])) == ps[k] {
      NatTextValue(ps[k]);
    }
  }

  /** The highlight names, in ascending order, exactly the positions where
      a and s differ; it is empty exactly when they agree on their common
      length. */
  lemma HighlightLists(a: string, s: string)
    ensures var n := if |a| <= |s| then |a| else |s|;
      Highlight(a, s) == "" <==> forall i :: 0 <= i < n ==> a[i] == s[i]
    ensures var n := if |a| <= |s| then |a| else |s|;
      forall i: nat :: NatText(i) in Split(Highlight(a, s)) <==> i < n && a[i] != s[i]
    ensures var pieces := Split(Highlight(a, s));
      Highlight(a, s) != "" ==>
        (forall k :: 0 <= k < |pieces| ==> IsDigitText(pieces[k])) &&
        forall k, l :: 0 <= k < l < |pieces| ==> Decimal(DigitsOf(pieces[k])) < Decimal(DigitsOf(pieces[l]))
  {
    var n := if |a| <= |s| then |a| else |s|;
    var ps := Diffs(a, s, n);
    DiffsExactly(a, s, n);
    JoinedSplits(ps);
    if ps == [] {
      assert Split(Highlight(a, s)) == [""];
      forall i | 0 <= i < n ensures a[i] == s[i] {
        assert i !in ps;
      }
    } else {
      assert Split(Highlight(a, s)) == Texts(ps);
      assert a[ps[0]] != s[ps[0]] by { assert ps[0] in ps; }
      TextsMembers(ps);
      TextsValues(ps);
    }
  }

  lemma ListedStep(a: string, s: string, i: nat)
    requires i < |a| && i < |s|
    ensures Listed(Diffs(a, s, i + 1)) ==
      if a[i] != s[i] then Listed(Diffs(a, s, i)) + NatText(i) + "," else Listed(Diffs(a, s, i))
  {
    var ps := Diffs(a, s, i + 1);
    if a[i] != s[i] {
      assert ps[..|ps| - 1] == Diffs(a, s, i);
    } else {
      assert ps == Diffs(a, s, i);
    }
  }

  /** The loop of `decode_barcode` that collects the differing positions,
      then drops the final comma. */
  method DiffText(a: string, s: string) returns (h: string)
    ensures h == Highlight(a, s)
  {
    var n := if |a| <= |s| then |a| else |s|;
    var differences := "";
    for i := 0 to n
      invariant differences == Listed(Diffs(a, s, i))
    {
      ListedStep(a, s, i);
      if a[i] != s[i] {
        differences := differences + NatText(i) + ",";
      }
    }
    if differences != "" {
      h := differences[..|differences| - 1];
    } else {
      h := "";
    }
  }
}

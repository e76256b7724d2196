/** The bar-to-bit permutation of the Intelligent Mail barcode
    (USPS-B-3200 section 2.2.6): each of the 65 bar positions has a
    descender and an ascender, and each of those lights one bit of one of
    the ten 13-bit characters. `text_to_chars` goes from bars to characters,
    `chars_to_text` back; `flip_barcode` turns a barcode upside down. */
module Bars {
  import opened Wrappers
  import opened Bits

  /** The bar that owns a character bit: its position and whether it is
      the descender (true) or the ascender (false). */
  datatype Slot = Slot(pos: nat, desc: bool)

  /** `DESC_CHAR`: the character a descender at position n lights. */
  function DescChar(n: nat): nat
    requires n < 65
  {
    match n
      case 0 => 7 case 1 => 1 case 2 => 9 case 3 => 5 case 4 => 8 case 5 => 0 case 6 => 2 case 7 => 4 case 8 => 6 case 9 => 3 case 10 => 5 case 11 => 8 case 12 => 9
      case 13 => 7 case 14 => 3 case 15 => 0 case 16 => 6 case 17 => 1 case 18 => 7 case 19 => 4 case 20 => 6 case 21 => 8 case 22 => 9 case 23 => 2 case 24 => 5 case 25 => 1
      case 26 => 7 case 27 => 5 case 28 => 4 case 29 => 3 case 30 => 8 case 31 => 7 case 32 => 6 case 33 => 0 case 34 => 2 case 35 => 5 case 36 => 4 case 37 => 9 case 38 => 3
      case 39 => 0 case 40 => 1 case 41 => 6 case 42 => 8 case 43 => 2 case 44 => 0 case 45 => 4 case 46 => 5 case 47 => 9 case 48 => 6 case 49 => 7 case 50 => 5 case 51 => 2
      case 52 => 6 case 53 => 3 case 54 => 8 case 55 => 5 case 56 => 1 case 57 => 9 case 58 => 8 case 59 => 7 case 60 => 4 case 61 => 0 case 62 => 2 case 63 => 6 case 64 => 3
  }

  /** `DESC_BIT` as bit positions: a descender at position n lights bit DescShift(n). */
  function DescShift(n: nat): nat
    requires n < 65
  {
    match n
      case 0 => 2 case 1 => 10 case 2 => 12 case 3 => 5 case 4 => 9 case 5 => 1 case 6 => 5 case 7 => 4 case 8 => 3 case 9 => 9 case 10 => 11 case 11 => 5 case 12 => 10
      case 13 => 1 case 14 => 6 case 15 => 3 case 16 => 4 case 17 => 1 case 18 => 10 case 19 => 0 case 20 => 2 case 21 => 11 case 22 => 8 case 23 => 6 case 24 => 1 case 25 => 12
      case 26 => 3 case 27 => 8 case 28 => 6 case 29 => 4 case 30 => 4 case 31 => 11 case 32 => 0 case 33 => 6 case 34 => 1 case 35 => 9 case 36 => 11 case 37 => 5 case 38 => 3
      case 39 => 7 case 40 => 3 case 41 => 10 case 42 => 7 case 43 => 11 case 44 => 8 case 45 => 2 case 46 => 10 case 47 => 3 case 48 => 5 case 49 => 8 case 50 => 0 case 51 => 3
      case 52 => 12 case 53 => 11 case 54 => 8 case 55 => 4 case 56 => 5 case 57 => 1 case 58 => 3 case 59 => 0 case 60 => 7 case 61 => 12 case 62 => 9 case 63 => 8 case 64 => 10
  }

  /** `ASC_CHAR`: the character an ascender at position n lights. */
  function AscChar(n: nat): nat
    requires n < 65
  {
    match n
      case 0 => 4 case 1 => 0 case 2 => 2 case 3 => 6 case 4 => 3 case 5 => 5 case 6 => 1 case 7 => 9 case 8 => 8 case 9 => 7 case 10 => 1 case 11 => 2 case 12 => 0
      case 13 => 6 case 14 => 4 case 15 => 8 case 16 => 2 case 17 => 9 case 18 => 5 case 19 => 3 case 20 => 0 case 21 => 1 case 22 => 3 case 23 => 7 case 24 => 4 case 25 => 6
      case 26 => 8 case 27 => 9 case 28 => 2 case 29 => 0 case 30 => 5 case 31 => 1 case 32 => 9 case 33 => 4 case 34 => 3 case 35 => 8 case 36 => 6 case 37 => 7 case 38 => 1
      case 39 => 2 case 40 => 4 case 41 => 3 case 42 => 9 case 43 => 5 case 44 => 7 case 45 => 8 case 46 => 3 case 47 => 0 case 48 => 2 case 49 => 1 case 50 => 4 case 51 => 0
      case 52 => 9 case 53 => 1 case 54 => 7 case 55 => 0 case 56 => 2 case 57 => 4 case 58 => 6 case 59 => 3 case 60 => 7 case 61 => 1 case 62 => 9 case 63 => 5 case 64 => 8
  }

  /** `ASC_BIT` as bit positions: an ascender at position n lights bit AscShift(n). */
  function AscShift(n: nat): nat
    requires n < 65
  {
    match n
      case 0 => 3 case 1 => 0 case 2 => 8 case 3 => 11 case 4 => 1 case 5 => 12 case 6 => 8 case 7 => 11 case 8 => 10 case 9 => 6 case 10 => 4 case 11 => 12 case 12 => 2
      case 13 => 7 case 14 => 9 case 15 => 6 case 16 => 7 case 17 => 9 case 18 => 2 case 19 => 8 case 20 => 4 case 21 => 0 case 22 => 12 case 23 => 7 case 24 => 10 case 25 => 9
      case 26 => 0 case 27 => 7 case 28 => 10 case 29 => 5 case 30 => 7 case 31 => 9 case 32 => 6 case 33 => 8 case 34 => 2 case 35 => 12 case 36 => 1 case 37 => 4 case 38 => 2
      case 39 => 0 case 40 => 1 case 41 => 5 case 42 => 4 case 43 => 6 case 44 => 12 case 45 => 1 case 46 => 0 case 47 => 9 case 48 => 4 case 49 => 7 case 50 => 5 case 51 => 10
      case 52 => 2 case 53 => 6 case 54 => 9 case 55 => 11 case 56 => 2 case 57 => 12 case 58 => 6 case 59 => 7 case 60 => 5 case 61 => 11 case 62 => 0 case 63 => 3 case 64 => 2
  }

  /** The bar that lights bit k of character c, under key c * 13 + k: the
      inverse of the two tables above (every one of the 130 bits belongs to
      exactly one bar of one position). */
  function Owner(key: nat): Slot
    requires key < 130
  {
    match key
      case 0 => Slot(1, false) case 1 => Slot(5, true) case 2 => Slot(12, false) case 3 => Slot(15, true) case 4 => Slot(20, false) case 5 => Slot(29, false) case 6 => Slot(33, true) case 7 => Slot(39, true) case 8 => Slot(44, true) case 9 => Slot(47, false) case 10 => Slot(51, false) case 11 => Slot(55, false) case 12 => Slot(61, true)
      case 13 => Slot(21, false) case 14 => Slot(17, true) case 15 => Slot(38, false) case 16 => Slot(40, true) case 17 => Slot(10, false) case 18 => Slot(56, true) case 19 => Slot(53, false) case 20 => Slot(49, false) case 21 => Slot(6, false) case 22 => Slot(31, false) case 23 => Slot(1, true) case 24 => Slot(61, false) case 25 => Slot(25, true)
      case 26 => Slot(39, false) case 27 => Slot(34, true) case 28 => Slot(56, false) case 29 => Slot(51, true) case 30 => Slot(48, false) case 31 => Slot(6, true) case 32 => Slot(23, true) case 33 => Slot(16, false) case 34 => Slot(2, false) case 35 => Slot(62, true) case 36 => Slot(28, false) case 37 => Slot(43, true) case 38 => Slot(11, false)
      case 39 => Slot(46, false) case 40 => Slot(4, false) case 41 => Slot(34, false) case 42 => Slot(38, true) case 43 => Slot(29, true) case 44 => Slot(41, false) case 45 => Slot(14, true) case 46 => Slot(59, false) case 47 => Slot(19, false) case 48 => Slot(9, true) case 49 => Slot(64, true) case 50 => Slot(53, true) case 51 => Slot(22, false)
      case 52 => Slot(19, true) case 53 => Slot(40, false) case 54 => Slot(45, true) case 55 => Slot(0, false) case 56 => Slot(7, true) case 57 => Slot(50, false) case 58 => Slot(28, true) case 59 => Slot(60, true) case 60 => Slot(33, false) case 61 => Slot(14, false) case 62 => Slot(24, false) case 63 => Slot(36, true) case 64 => Slot(57, false)
      case 65 => Slot(50, true) case 66 => Slot(24, true) case 67 => Slot(18, false) case 68 => Slot(63, false) case 69 => Slot(55, true) case 70 => Slot(3, true) case 71 => Slot(43, false) case 72 => Slot(30, false) case 73 => Slot(27, true) case 74 => Slot(35, true) case 75 => Slot(46, true) case 76 => Slot(10, true) case 77 => Slot(5, false)
      case 78 => Slot(32, true) case 79 => Slot(36, false) case 80 => Slot(20, true) case 81 => Slot(8, true) case 82 => Slot(16, true) case 83 => Slot(48, true) case 84 => Slot(58, false) case 85 => Slot(13, false) case 86 => Slot(63, true) case 87 => Slot(25, false) case 88 => Slot(41, true) case 89 => Slot(3, false) case 90 => Slot(52, true)
      case 91 => Slot(59, true) case 92 => Slot(13, true) case 93 => Slot(0, true) case 94 => Slot(26, true) case 95 => Slot(37, false) case 96 => Slot(60, false) case 97 => Slot(9, false) case 98 => Slot(23, false) case 99 => Slot(49, true) case 100 => Slot(54, false) case 101 => Slot(18, true) case 102 => Slot(31, true) case 103 => Slot(44, false)
      case 104 => Slot(26, false) case 105 => Slot(45, false) case 106 => Slot(64, false) case 107 => Slot(58, true) case 108 => Slot(30, true) case 109 => Slot(11, true) case 110 => Slot(15, false) case 111 => Slot(42, true) case 112 => Slot(54, true) case 113 => Slot(4, true) case 114 => Slot(8, false) case 115 => Slot(21, true) case 116 => Slot(35, false)
      case 117 => Slot(62, false) case 118 => Slot(57, true) case 119 => Slot(52, false) case 120 => Slot(47, true) case 121 => Slot(42, false) case 122 => Slot(37, true) case 123 => Slot(32, false) case 124 => Slot(27, false) case 125 => Slot(22, true) case 126 => Slot(17, false) case 127 => Slot(12, true) case 128 => Slot(7, false) case 129 => Slot(2, true)
  }

  /** `DESC_BIT[n]`, the mask of the bit a descender at position n lights. */
  function DescBit(n: nat): nat
    requires n < 65
  {
    Pow2(DescShift(n))
  }

  /** `ASC_BIT[n]`, the mask of the bit an ascender at position n lights. */
  function AscBit(n: nat): nat
    requires n < 65
  {
    Pow2(AscShift(n))
  }

  /** Every bar lights a bit below 13 of one of the characters 0..9. */
  lemma Ranges(n: nat)
    requires n < 65
    ensures DescChar(n) < 10 && DescShift(n) < 13 && AscChar(n) < 10 && AscShift(n) < 13
  {
  }

  /** The key of bit k of character c in the owner table. */
  function Key(c: nat, k: nat): nat
  {
    c * 13 + k
  }

  /** What the tables say about position n. */
  predicate Facts(n: nat)
    requires n < 65
  {
    DescChar(n) < 10 && DescShift(n) < 13 && AscChar(n) < 10 && AscShift(n) < 13 &&
    Owner(Key(DescChar(n), DescShift(n))) == Slot(n, true) &&
    Owner(Key(AscChar(n), AscShift(n))) == Slot(n, false)
  }

  lemma PositionFacts0(n: nat)
    requires 0 <= n < 13
    ensures DescChar(n) < 10 && DescShift(n) < 13 && AscChar(n) < 10 && AscShift(n) < 13
    ensures Owner(DescChar(n) * 13 + DescShift(n)) == Slot(n, true)
    ensures Owner(AscChar(n) * 13 + AscShift(n)) == Slot(n, false)
  {
    if n < 6 {
      if n < 3 {
        if n < 1 {
          assert n == 0;
        } else {
          if n < 2 {
            assert n == 1;
          } else {
            assert n == 2;
          }
        }
      } else {
        if n < 4 {
          assert n == 3;
        } else {
          if n < 5 {
            assert n == 4;
          } else {
            assert n == 5;
          }
        }
      }
    } else {
      if n < 9 {
        if n < 7 {
          assert n == 6;
        } else {
          if n < 8 {
            assert n == 7;
          } else {
            assert n == 8;
          }
        }
      } else {
        if n < 11 {
          if n < 10 {
            assert n == 9;
          } else {
            assert n == 10;
          }
        } else {
          if n < 12 {
            assert n == 11;
          } else {
            assert n == 12;
          }
        }
      }
    }
  }

  lemma PositionFacts1(n: nat)
    requires 13 <= n < 26
    ensures DescChar(n) < 10 && DescShift(n) < 13 && AscChar(n) < 10 && AscShift(n) < 13
    ensures Owner(DescChar(n) * 13 + DescShift(n)) == Slot(n, true)
    ensures Owner(AscChar(n) * 13 + AscShift(n)) == Slot(n, false)
  {
    if n < 19 {
      if n < 16 {
        if n < 14 {
          assert n == 13;
        } else {
          if n < 15 {
            assert n == 14;
          } else {
            assert n == 15;
          }
        }
      } else {
        if n < 17 {
          assert n == 16;
        } else {
          if n < 18 {
            assert n == 17;
          } else {
            assert n == 18;
          }
        }
      }
    } else {
      if n < 22 {
        if n < 20 {
          assert n == 19;
        } else {
          if n < 21 {
            assert n == 20;
          } else {
            assert n == 21;
          }
        }
      } else {
        if n < 24 {
          if n < 23 {
            assert n == 22;
          } else {
            assert n == 23;
          }
        } else {
          if n < 25 {
            assert n == 24;
          } else {
            assert n == 25;
          }
        }
      }
    }
  }

  lemma PositionFacts2(n: nat)
    requires 26 <= n < 39
    ensures DescChar(n) < 10 && DescShift(n) < 13 && AscChar(n) < 10 && AscShift(n) < 13
    ensures Owner(DescChar(n) * 13 + DescShift(n)) == Slot(n, true)
    ensures Owner(AscChar(n) * 13 + AscShift(n)) == Slot(n, false)
  {
    if n < 32 {
      if n < 29 {
        if n < 27 {
          assert n == 26;
        } else {
          if n < 28 {
            assert n == 27;
          } else {
            assert n == 28;
          }
        }
      } else {
        if n < 30 {
          assert n == 29;
        } else {
          if n < 31 {
            assert n == 30;
          } else {
            assert n == 31;
          }
        }
      }
    } else {
      if n < 35 {
        if n < 33 {
          assert n == 32;
        } else {
          if n < 34 {
            assert n == 33;
          } else {
            assert n == 34;
          }
        }
      } else {
        if n < 37 {
          if n < 36 {
            assert n == 35;
          } else {
            assert n == 36;
          }
        } else {
          if n < 38 {
            assert n == 37;
          } else {
            assert n == 38;
          }
        }
      }
    }
  }

  lemma PositionFacts3(n: nat)
    requires 39 <= n < 52
    ensures DescChar(n) < 10 && DescShift(n) < 13 && AscChar(n) < 10 && AscShift(n) < 13
    ensures Owner(DescChar(n) * 13 + DescShift(n)) == Slot(n, true)
    ensures Owner(AscChar(n) * 13 + AscShift(n)) == Slot(n, false)
  {
    if n < 45 {
      if n < 42 {
        if n < 40 {
          assert n == 39;
        } else {
          if n < 41 {
            assert n == 40;
          } else {
            assert n == 41;
          }
        }
      } else {
        if n < 43 {
          assert n == 42;
        } else {
          if n < 44 {
            assert n == 43;
          } else {
            assert n == 44;
          }
        }
      }
    } else {
      if n < 48 {
        if n < 46 {
          assert n == 45;
        } else {
          if n < 47 {
            assert n == 46;
          } else {
            assert n == 47;
          }
        }
      } else {
        if n < 50 {
          if n < 49 {
            assert n == 48;
          } else {
            assert n == 49;
          }
        } else {
          if n < 51 {
            assert n == 50;
          } else {
            assert n == 51;
          }
        }
      }
    }
  }

  lemma PositionFacts4(n: nat)
    requires 52 <= n < 65
    ensures DescChar(n) < 10 && DescShift(n) < 13 && AscChar(n) < 10 && AscShift(n) < 13
    ensures Owner(DescChar(n) * 13 + DescShift(n)) == Slot(n, true)
    ensures Owner(AscChar(n) * 13 + AscShift(n)) == Slot(n, false)
  {
    if n < 58 {
      if n < 55 {
        if n < 53 {
          assert n == 52;
        } else {
          if n < 54 {
            assert n == 53;
          } else {
            assert n == 54;
          }
        }
      } else {
        if n < 56 {
          assert n == 55;
        } else {
          if n < 57 {
            assert n == 56;
          } else {
            assert n == 57;
          }
        }
      }
    } else {
      if n < 61 {
        if n < 59 {
          assert n == 58;
        } else {
          if n < 60 {
            assert n == 59;
          } else {
            assert n == 60;
          }
        }
      } else {
        if n < 63 {
          if n < 62 {
            assert n == 61;
          } else {
            assert n == 62;
          }
        } else {
          if n < 64 {
            assert n == 63;
          } else {
            assert n == 64;
          }
        }
      }
    }
  }

  /** Every position's two bars light bits of characters 0..9 below bit 13,
      and the owner table maps each of them back to that position and bar. */
  lemma PositionFacts(n: nat)
    requires n < 65
    ensures Facts(n)
  {
    if n < 13 {
      PositionFacts0(n);
    } else if n < 26 {
      PositionFacts1(n);
    } else if n < 39 {
      PositionFacts2(n);
    } else if n < 52 {
      PositionFacts3(n);
    } else {
      PositionFacts4(n);
    }
  }

  /** The symbols a barcode is written in: Tracker (also S), Descender,
      Ascender, Full. */
  predicate HasDesc(sym: char) { sym == 'D' || sym == 'F' }
  predicate HasAsc(sym: char) { sym == 'A' || sym == 'F' }
  predicate Foreign(sym: char) { sym !in {'T', 'S', 'D', 'A', 'F'} }

  /** `str.upper` on the ASCII letters. */
  function Upper(c: char): char
  {
    if 'a' <= c <= 'z' then (c as int - 32) as char else c
  }

  /** Free of spaces and lower-case letters: what `clean_str` leaves. */
  predicate Clean(s: string)
  {
    forall i :: 0 <= i < |s| ==> s[i] != ' ' && !('a' <= s[i] <= 'z')
  }

  /** `clean_str`: upper-case the input and drop its spaces. */
  function CleanStr(s: string): (r: string)
    ensures |r| <= |s| && Clean(r)
    ensures (forall i :: 0 <= i < |s| ==> s[i] != ' ') ==> |r| == |s|
  {
    if s == [] then []
    else (if s[0] == ' ' then [] else [Upper(s[0])]) + CleanStr(s[1..])
  }

  /** A clean string is its own `clean_str`, so cleaning twice is cleaning once. */
  lemma {:induction false} CleanStrClean(s: string)
    requires Clean(s)
    ensures CleanStr(s) == s
  {
    if s != [] {
      assert Clean(s[1..]) by {
        forall i | 0 <= i < |s[1..]| ensures s[1..][i] != ' ' && !('a' <= s[1..][i] <= 'z') {
          assert s[1..][i] == s[i + 1];
        }
      }
      CleanStrClean(s[1..]);
    }
  }

  lemma CleanStrIdempotent(s: string)
    ensures CleanStr(CleanStr(s)) == CleanStr(s)
  {
    CleanStrClean(CleanStr(s));
  }

  /** `ljust(65, 'T')`: short barcodes are padded with trackers. */
  function Padded(b: string): (r: string)
    ensures |r| >= 65
    ensures forall i :: 0 <= i < |r| ==> r[i] == if i < |b| then b[i] else 'T'
  {
    if |b| < 65 then b + seq(65 - |b|, _ => 'T') else b
  }

  /** Ten characters with no bit lit. */
  function Blank(): (r: seq<nat>)
    ensures |r| == 10 && forall c :: 0 <= c < 10 ==> r[c] == 0
  {
    seq(10, _ => 0)
  }

  /** The effect of the symbol at position n on the characters: a descender
      ors DESC_BIT[n] into character DESC_CHAR[n], an ascender ors ASC_BIT[n]
      into ASC_CHAR[n], a full bar does both; a tracker, and in lenient mode
      any other symbol, leaves them alone. The index checks of the source are
      kept, though no table entry fails them. */
  function Mark(chars: seq<nat>, n: nat, sym: char): (r: seq<nat>)
    requires |chars| == 10 && n < 65
    ensures |r| == 10
  {
    var withDesc :=
      if HasDesc(sym) && DescChar(n) < 10 then chars[DescChar(n) := Or(chars[DescChar(n)], DescBit(n))]
      else chars;
    if HasAsc(sym) && AscChar(n) < 10 then withDesc[AscChar(n) := Or(withDesc[AscChar(n)], AscBit(n))]
    else withDesc
  }

  /** The characters after positions n..64 of b have been applied to chars;
      None when strict and one of them is a foreign symbol. */
  function Scan(b: string, n: nat, chars: seq<nat>, strict: bool): (r: Option<seq<nat>>)
    requires n <= 65 <= |b| && |chars| == 10
    ensures r.Some? ==> |r.value| == 10
    decreases 65 - n
  {
    if n == 65 then Some(chars)
    else if strict && Foreign(b[n]) then None
    else Scan(b, n + 1, Mark(chars, n, b[n]), strict)
  }

  /** What `text_to_chars` returns for barcode. */
  function Permute(barcode: string, strict: bool): (r: Option<seq<nat>>)
    ensures r.Some? ==> |r.value| == 10
  {
    Scan(Padded(CleanStr(barcode)), 0, Blank(), strict)
  }

  lemma MarkTrack(chars: seq<nat>, n: nat, sym: char)
    requires |chars| == 10 && n < 65 && !HasDesc(sym) && !HasAsc(sym)
    ensures Mark(chars, n, sym) == chars
  {
  }

  lemma MarkDesc(chars: seq<nat>, n: nat)
    requires |chars| == 10 && n < 65
    ensures Mark(chars, n, 'D') ==
      if DescChar(n) < 10 then chars[DescChar(n) := Or(chars[DescChar(n)], DescBit(n))] else chars
  {
  }

  lemma MarkAsc(chars: seq<nat>, n: nat)
    requires |chars| == 10 && n < 65
    ensures Mark(chars, n, 'A') ==
      if AscChar(n) < 10 then chars[AscChar(n) := Or(chars[AscChar(n)], AscBit(n))] else chars
  {
  }

  lemma MarkFull(chars: seq<nat>, middle: seq<nat>, n: nat)
    requires |chars| == 10 && n < 65
    requires middle == if DescChar(n) < 10 then chars[DescChar(n) := Or(chars[DescChar(n)], DescBit(n))] else chars
    ensures Mark(chars, n, 'F') ==
      if AscChar(n) < 10 then middle[AscChar(n) := Or(middle[AscChar(n)], AscBit(n))] else middle
  {
  }

  /** The body of `text_to_chars`'s loop for a symbol it accepts: light the
      bars of symbol c at position n. */
  method LightBars(chars: array<nat>, n: nat, c: char)
    requires chars.Length == 10 && n < 65
    modifies chars
    ensures chars[..] == Mark(old(chars[..]), n, c)
  {
    ghost var before := chars[..];
    var dc, ac := DescChar(n), AscChar(n);
    if c == 'D' {
      if dc < 10 {
        chars[dc] := Or(chars[dc], DescBit(n));
      }
      MarkDesc(before, n);
    } else if c == 'A' {
      if ac < 10 {
        chars[ac] := Or(chars[ac], AscBit(n));
      }
      MarkAsc(before, n);
    } else if c == 'F' {
      if dc < 10 {
        chars[dc] := Or(chars[dc], DescBit(n));
      }
      ghost var middle := chars[..];
      if ac < 10 {
        chars[ac] := Or(chars[ac], AscBit(n));
      }
      MarkFull(before, middle, n);
    } else {
      // a tracker ('T' or 'S'), or any other symbol in lenient mode
      MarkTrack(before, n, c);
    }
  }

  /** `text_to_chars`: clean and pad the barcode, then or the bit of every bar
      of the first 65 positions into its character. */
  method TextToChars(barcode: string, strict: bool) returns (r: Option<seq<nat>>)
    ensures r == Permute(barcode, strict)
  {
    var b := CleanStr(barcode);
    if |b| < 65 {
      b := b + seq(65 - |b|, _ => 'T');
    }
    assert b == Padded(CleanStr(barcode));
    var chars := new nat[10](_ => 0);
    assert chars[..] == Blank();
    // Every index is below 65 <= |b|, so the source's `n >= len(barcode)`
    // exit is never taken.
    for n := 0 to 65
      invariant Scan(b, n, chars[..], strict) == Permute(barcode, strict)
    {
      var c := b[n];
      if strict && Foreign(c) {
        // an unexpected symbol ends strict conversion
        return None;
      }
      LightBars(chars, n, c);
    }
    return Some(chars[..]);
  }

  /** Strict scanning fails exactly on a foreign symbol among the positions
      still to go; lenient scanning never fails. */
  lemma {:induction false} ScanFails(b: string, n: nat, chars: seq<nat>, strict: bool)
    requires n <= 65 <= |b| && |chars| == 10
    ensures Scan(b, n, chars, strict).None? <==> strict && exists i :: n <= i < 65 && Foreign(b[i])
    decreases 65 - n
  {
    if n < 65 {
      if strict && Foreign(b[n]) {
        assert n <= n < 65 && Foreign(b[n]);
      } else {
        ScanFails(b, n + 1, Mark(chars, n, b[n]), strict);
        if exists i :: n <= i < 65 && Foreign(b[i]) {
          var i :| n <= i < 65 && Foreign(b[i]);
          assert i != n || !strict;
        }
      }
    }
  }

  /** Where strict scanning succeeds, it agrees with lenient scanning. */
  lemma {:induction false} ScanAgree(b: string, n: nat, chars: seq<nat>)
    requires n <= 65 <= |b| && |chars| == 10
    requires Scan(b, n, chars, true).Some?
    ensures Scan(b, n, chars, true) == Scan(b, n, chars, false)
    decreases 65 - n
  {
    if n < 65 {
      ScanAgree(b, n + 1, Mark(chars, n, b[n]));
    }
  }

  /** Scanning reads nothing past position 64. */
  lemma {:induction false} ScanPrefix(b: string, b': string, n: nat, chars: seq<nat>, strict: bool)
    requires n <= 65 <= |b| && 65 <= |b'| && |chars| == 10
    requires forall i :: n <= i < 65 ==> b[i] == b'[i]
    ensures Scan(b, n, chars, strict) == Scan(b', n, chars, strict)
    decreases 65 - n
  {
    if n < 65 {
      ScanPrefix(b, b', n + 1, Mark(chars, n, b[n]), strict);
    }
  }

  /** In lenient mode a foreign symbol does what a tracker does. */
  lemma {:induction false} ScanForeignAsTrack(b: string, b': string, n: nat, chars: seq<nat>)
    requires n <= 65 <= |b| && 65 <= |b'| && |chars| == 10
    requires forall i :: n <= i < 65 ==> b[i] == b'[i] || (Foreign(b[i]) && b'[i] == 'T')
    ensures Scan(b, n, chars, false) == Scan(b', n, chars, false)
    decreases 65 - n
  {
    if n < 65 {
      if b[n] != b'[n] {
        MarkTrack(chars, n, b[n]);
        MarkTrack(chars, n, b'[n]);
      }
      ScanForeignAsTrack(b, b', n + 1, Mark(chars, n, b[n]));
    }
  }

  /** Characters stay 13-bit values. */
  lemma {:induction false} ScanBound(b: string, n: nat, chars: seq<nat>, strict: bool)
    requires n <= 65 <= |b| && |chars| == 10
    requires forall c :: 0 <= c < 10 ==> chars[c] < 8192
    ensures Scan(b, n, chars, strict).Some? ==>
      forall c :: 0 <= c < 10 ==> Scan(b, n, chars, strict).value[c] < 8192
    decreases 65 - n
  {
    if n < 65 && !(strict && Foreign(b[n])) {
      MarkBound(chars, n, b[n]);
      ScanBound(b, n + 1, Mark(chars, n, b[n]), strict);
    }
  }

  lemma MarkBound(chars: seq<nat>, n: nat, sym: char)
    requires |chars| == 10 && n < 65
    requires forall c :: 0 <= c < 10 ==> chars[c] < 8192
    ensures forall c :: 0 <= c < 10 ==> Mark(chars, n, sym)[c] < 8192
  {
    Ranges(n);
    assert Pow2(13) == 8192;
    Pow2Less(DescShift(n), 13);
    Pow2Less(AscShift(n), 13);
    var withDesc :=
      if HasDesc(sym) && DescChar(n) < 10 then chars[DescChar(n) := Or(chars[DescChar(n)], DescBit(n))]
      else chars;
    OrBound(chars[DescChar(n)], DescBit(n), 13);
    assert forall c :: 0 <= c < 10 ==> withDesc[c] < 8192;
    OrBound(withDesc[AscChar(n)], AscBit(n), 13);
  }

  /** Bit k of Mark's result for character c: lit by the bar of symbol sym
      at position n that owns it, otherwise as before. */
  lemma MarkBit(chars: seq<nat>, n: nat, sym: char, c: nat, k: nat)
    requires |chars| == 10 && n < 65 && c < 10
    ensures Bit(Mark(chars, n, sym)[c], k) ==
      if (HasDesc(sym) && c == DescChar(n) && k == DescShift(n)) ||
         (HasAsc(sym) && c == AscChar(n) && k == AscShift(n))
      then 1 else Bit(chars[c], k)
  {
    Ranges(n);
    var withDesc :=
      if HasDesc(sym) && DescChar(n) < 10 then chars[DescChar(n) := Or(chars[DescChar(n)], DescBit(n))]
      else chars;
    OrPow2Bit(chars[c], DescShift(n), k);
    OrPow2Bit(withDesc[c], AscShift(n), k);
  }

  /** The two bits of position p hold its two bars once p has been scanned,
      and are dark before. */
  predicate Shows(chars: seq<nat>, b: string, p: nat, upto: nat)
    requires |chars| == 10 && p < 65 <= |b| && DescChar(p) < 10 && AscChar(p) < 10
  {
    Bit(chars[DescChar(p)], DescShift(p)) == (if p < upto && HasDesc(b[p]) then 1 else 0) &&
    Bit(chars[AscChar(p)], AscShift(p)) == (if p < upto && HasAsc(b[p]) then 1 else 0)
  }

  /** Two bars never share a bit: the descender and the ascender of one
      position differ, and neither bar of position p is a bar of another
      position n. */
  lemma Apart(p: nat, n: nat)
    requires p < 65 && n < 65
    ensures !(DescChar(p) == AscChar(n) && DescShift(p) == AscShift(n))
    ensures p != n ==> !(DescChar(p) == DescChar(n) && DescShift(p) == DescShift(n))
    ensures p != n ==> !(AscChar(p) == AscChar(n) && AscShift(p) == AscShift(n))
  {
    PositionFacts(p);
    PositionFacts(n);
  }

  /** Scanning position n touches no bit of another position, because no
      two bars share a bit. */
  lemma MarkShows(chars: seq<nat>, b: string, p: nat, n: nat)
    requires |chars| == 10 && p < 65 <= |b| && n < 65 && DescChar(p) < 10 && AscChar(p) < 10
    requires Shows(chars, b, p, n)
    ensures Shows(Mark(chars, n, b[n]), b, p, n + 1)
  {
    Apart(p, n);
    Apart(n, p);
    MarkBit(chars, n, b[n], DescChar(p), DescShift(p));
    MarkBit(chars, n, b[n], AscChar(p), AscShift(p));
  }

  lemma {:induction false} ScanShows(b: string, n: nat, chars: seq<nat>, strict: bool, p: nat)
    requires n <= 65 <= |b| && |chars| == 10 && p < 65 && DescChar(p) < 10 && AscChar(p) < 10
    requires Shows(chars, b, p, n) && Scan(b, n, chars, strict).Some?
    ensures Shows(Scan(b, n, chars, strict).value, b, p, 65)
    decreases 65 - n
  {
    if n < 65 {
      MarkShows(chars, b, p, n);
      ScanShows(b, n + 1, Mark(chars, n, b[n]), strict, p);
    }
  }

  /** The bar `chars_to_text` reads back at position n: a descender where
      chars[DESC_CHAR[n]] & DESC_BIT[n] is set, an ascender where
      chars[ASC_CHAR[n]] & ASC_BIT[n] is, both for a full bar; a tracker
      when neither is, or when an index is out of range. */
  function Symbol(chars: seq<nat>, n: nat): char
    requires n < 65
  {
    if DescChar(n) < |chars| && AscChar(n) < |chars| then
      var hasDesc := And(chars[DescChar(n)], DescBit(n)) != 0;
      var hasAsc := And(chars[AscChar(n)], AscBit(n)) != 0;
      if hasDesc then (if hasAsc then 'F' else 'D')
      else if hasAsc then 'A' else 'T'
    else 'T'
  }

  /** `chars_to_text`: the 65 bars the characters stand for. */
  function CharsToText(chars: seq<nat>): (r: string)
    ensures |r| == 65 && forall i :: 0 <= i < 65 ==> r[i] in {'A', 'D', 'T', 'F'}
  {
    seq(65, n requires 0 <= n < 65 => Symbol(chars, n))
  }

  /** Position p of a 65-bar barcode survives the trip through the
      characters. */
  lemma RoundTripAt(s: string, p: nat)
    requires |s| == 65 && p < 65 && Permute(s, true).Some? && Padded(CleanStr(s)) == s
    requires s[p] in {'A', 'D', 'T', 'F'}
    ensures Symbol(Permute(s, true).value, p) == s[p]
  {
    var chars := Permute(s, true).value;
    Ranges(p);
    BitOfZero(DescShift(p));
    BitOfZero(AscShift(p));
    ScanShows(s, 0, Blank(), true, p);
    AndPow2(chars[DescChar(p)], DescShift(p));
    AndPow2(chars[AscChar(p)], AscShift(p));
  }

  /** A barcode of 65 bars converts to characters and back to itself. */
  lemma RoundTrip(s: string)
    requires |s| == 65 && forall i :: 0 <= i < 65 ==> s[i] in {'A', 'D', 'T', 'F'}
    ensures Permute(s, true).Some? && CharsToText(Permute(s, true).value) == s
  {
    assert Clean(s);
    CleanStrClean(s);
    assert Padded(s) == s;
    ScanFails(s, 0, Blank(), true);
    forall p | 0 <= p < 65 ensures CharsToText(Permute(s, true).value)[p] == s[p] {
      RoundTripAt(s, p);
    }
  }

  /** A foreign symbol among the first 65 of c. */
  predicate HasForeign(c: string)
  {
    exists i :: 0 <= i < |c| && i < 65 && Foreign(c[i])
  }

  /** Strict conversion fails exactly when a foreign symbol occurs among the
      first 65 symbols of the cleaned barcode. */
  lemma StrictRejects(barcode: string)
    ensures Permute(barcode, true).None? <==> HasForeign(CleanStr(barcode))
  {
    var c := CleanStr(barcode);
    var b := Padded(c);
    assert Permute(barcode, true) == Scan(b, 0, Blank(), true);
    ScanFails(b, 0, Blank(), true);
    if Permute(barcode, true).None? {
      var i :| 0 <= i < 65 && Foreign(b[i]);
      assert i < |c| && c[i] == b[i];
      assert 0 <= i < |c| && i < 65 && Foreign(c[i]);
    } else {
      forall i | 0 <= i < |c| && i < 65 ensures !Foreign(c[i]) {
        assert b[i] == c[i];
      }
    }
  }

  /** Lenient conversion always yields characters, and where strict
      conversion succeeds the two agree. */
  lemma LenientAccepts(barcode: string)
    ensures Permute(barcode, false).Some?
    ensures Permute(barcode, true).Some? ==> Permute(barcode, true) == Permute(barcode, false)
  {
    ScanFails(Padded(CleanStr(barcode)), 0, Blank(), false);
    if Permute(barcode, true).Some? {
      ScanAgree(Padded(CleanStr(barcode)), 0, Blank());
    }
  }

  /** In lenient mode a foreign symbol is read as a tracker. */
  lemma LenientForeignIsTrack(barcode: string, i: nat)
    requires i < |CleanStr(barcode)| && i < 65 && Foreign(CleanStr(barcode)[i])
    ensures Permute(barcode, false) == Permute(CleanStr(barcode)[i := 'T'], false)
  {
    var c := CleanStr(barcode);
    var c' := c[i := 'T'];
    assert Clean(c');
    CleanStrClean(c');
    ScanForeignAsTrack(Padded(c), Padded(c'), 0, Blank());
  }

  /** Only the first 65 symbols of the cleaned barcode matter. */
  lemma IgnoresPast65(barcode: string, strict: bool)
    requires |CleanStr(barcode)| >= 65
    ensures Permute(barcode, strict) == Permute(CleanStr(barcode)[..65], strict)
  {
    var c := CleanStr(barcode);
    assert Clean(c[..65]);
    CleanStrClean(c[..65]);
    ScanPrefix(c, c[..65], 0, Blank(), strict);
  }

  /** Every character produced is a 13-bit value. */
  lemma PermuteBound(barcode: string, strict: bool)
    ensures Permute(barcode, strict).Some? ==>
      forall c :: 0 <= c < 10 ==> Permute(barcode, strict).value[c] < 8192
  {
    ScanBound(Padded(CleanStr(barcode)), 0, Blank(), strict);
  }

  /** The other way up: A and D trade places. */
  function Swap(sym: char): char
  {
    if sym == 'A' then 'D' else if sym == 'D' then 'A' else sym
  }

  /** `flip_barcode`: the barcode read from its other end, upside down. */
  function FlipBarcode(s: string): (r: string)
    ensures |r| == |s|
    ensures forall i :: 0 <= i < |s| ==> r[i] == Swap(s[|s| - 1 - i])
  {
    if s == [] then []
    else [Swap(s[|s| - 1])] + FlipBarcode(s[..|s| - 1])
  }

  /** Flipping twice gives the barcode back. */
  lemma FlipInvolution(s: string)
    ensures FlipBarcode(FlipBarcode(s)) == s
  {
    var r := FlipBarcode(FlipBarcode(s));
    forall i | 0 <= i < |s| ensures r[i] == s[i] {
      assert FlipBarcode(s)[|s| - 1 - i] == Swap(s[i]);
    }
  }
}

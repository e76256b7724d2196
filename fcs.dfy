/** The 11-bit frame check sequence of the Intelligent Mail barcode
    (USPS-B-3200 section 2.2.2): a CRC with generator 0xF35 over the ten
    11-bit limbs of the binary data, started from 0x1F0. */
module Fcs {
  import opened Bits
  import opened BigNum

  /** One shift of the checksum register: `fcs <<= 1`, then `fcs ^= 0xf35`
      when bit 11 (0x800) came up. */
  function Shift(f: nat): (g: nat)
    ensures f < 2048 ==> g < 2048
  {
    var d := 2 * f;
    ShiftBound(f);
    if And(d, 2048) != 0 then Xor(d, 0xf35) else d
  }

  /** Since 0xF35 has bit 11 set, the reduction clears it, so an 11-bit
      register stays an 11-bit register. */
  lemma ShiftBound(f: nat)
    ensures var d := 2 * f;
      f < 2048 ==> (if And(d, 2048) != 0 then Xor(d, 0xf35) else d) < 2048
  {
    var d := 2 * f;
    if f < 2048 {
      assert Pow2(11) == 2048 && Pow2(12) == 4096;
      AndPow2(d, 11);
      if And(d, 2048) != 0 {
        XorBound(d, 0xf35, 12);
        BitXor(d, 0xf35, 11);
        assert Bit(0xf35, 11) == 1;
        TopBitClear(Xor(d, 0xf35), 11);
      } else {
        TopBitClear(d, 11);
      }
    }
  }

  /** Shifts per limb: one per bit. */
  const LimbBits: nat := 11

  /** k shifts of the register. */
  function Shifts(f: nat, k: nat): (g: nat)
    ensures f < 2048 ==> g < 2048
    decreases k
  {
    if k == 0 then f else Shifts(Shift(f), k - 1)
  }

  /** The register after the limbs of s have been folded into f: each limb
      is xored in and then shifted through eleven times. */
  function FcsFrom(f: nat, s: seq<nat>): nat
    decreases |s|
  {
    if s == [] then f else FcsFrom(Shifts(Xor(f, s[0]), LimbBits), s[1..])
  }

  /** The frame check sequence of the limbs s. */
  function FcsOf(s: seq<nat>): nat
  {
    FcsFrom(0x1f0, s)
  }

  /** Folding limbs in range into an 11-bit register keeps it 11 bits wide. */
  lemma {:induction false} FcsFromBound(f: nat, s: seq<nat>)
    requires f < 2048 && Limbs(s)
    ensures FcsFrom(f, s) < 2048
    decreases |s|
  {
    if s != [] {
      assert Pow2(11) == 2048;
      XorBound(f, s[0], 11);
      FcsFromBound(Shifts(Xor(f, s[0]), LimbBits), s[1..]);
    }
  }

  /** The checksum of limbs in range is an 11-bit value. */
  lemma FcsBound(s: seq<nat>)
    requires Limbs(s)
    ensures FcsOf(s) < 2048
  {
    FcsFromBound(0x1f0, s);
  }

  /** The inner loop of `calcfcs`: the register shifted through once per
      bit of a limb. */
  method ShiftLimb(f: nat) returns (fcs: nat)
    ensures fcs == Shifts(f, LimbBits)
  {
    fcs := f;
    var bit := 0;
    while bit < LimbBits
      invariant bit <= LimbBits
      invariant Shifts(fcs, LimbBits - bit) == Shifts(f, LimbBits)
    {
      ghost var f0 := fcs;
      assert Shifts(f0, LimbBits - bit) == Shifts(Shift(f0), LimbBits - (bit + 1));
      fcs := 2 * fcs;            // fcs <<= 1
      if And(fcs, 0x800) != 0 {
        fcs := Xor(fcs, 0xf35);
      }
      assert fcs == Shift(f0);
      bit := bit + 1;
    }
  }

  /** `calcfcs`: the frame check sequence of the limbs of num. */
  method CalcFcs(num: array<nat>) returns (fcs: nat)
    ensures fcs == FcsOf(num[..])
    ensures Limbs(num[..]) ==> fcs < 2048
  {
    fcs := 0x1f0;
    var n := 0;
    while n < num.Length
      invariant n <= num.Length
      invariant FcsFrom(fcs, num[n..]) == FcsOf(num[..])
    {
      assert num[n..] == [num[n]] + num[n + 1..];
      fcs := Xor(fcs, num[n]);   // fcs ^= num[n]
      fcs := ShiftLimb(fcs);
      n := n + 1;
    }
    assert num[n..] == [];
    if Limbs(num[..]) {
      FcsBound(num[..]);
    }
  }
}

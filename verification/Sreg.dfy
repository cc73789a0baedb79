/**
  Byte arithmetic and the flags of SREG (src/avr/avr_decoder.c: SUB, SBC, CP,
  CPC, ADD, ADC, LSR, ROR), and the wide arithmetic done by chains of them.
 */
module Sreg {
  import opened Arithmetic
  import opened Basics

  /** The arithmetic flags: carry, zero, negative, two's complement overflow, sign, half carry. */
  datatype Flags = Flags(c: bool, z: bool, n: bool, v: bool, s: bool, h: bool)

  /** Bit 7 and bit 3 of a value in two's complement. */
  function Bit7(x: int): bool {
    Bit(x, 7) == 1
  }

  function Bit3(x: int): bool {
    Bit(x, 3) == 1
  }

  /** One bit of `(~rd & rr) | (rr & r) | (r & ~rd)`. */
  function BorrowBit(rd: bool, rr: bool, r: bool): bool {
    (!rd && rr) || (rr && r) || (r && !rd)
  }

  /** One bit of `(rd & rr) | (rr & ~r) | (~r & rd)`. */
  function CarryBit(rd: bool, rr: bool, r: bool): bool {
    (rd && rr) || (rr && !r) || (!r && rd)
  }

  function One(b: bool): int {
    if b then 1 else 0
  }

  /** The flags of a subtraction with result r; r need not be reduced to a byte. */
  function SubFlags(rd: byte, rr: byte, r: int, z: bool): Flags {
    var n := Bit7(r);
    var v := (Bit7(rd) && !Bit7(rr) && !Bit7(r)) || (!Bit7(rd) && Bit7(rr) && Bit7(r));
    Flags(BorrowBit(Bit7(rd), Bit7(rr), Bit7(r)), z, n, v, n != v, BorrowBit(Bit3(rd), Bit3(rr), Bit3(r)))
  }

  function AddFlags(rd: byte, rr: byte, r: byte): Flags {
    var n := Bit7(r);
    var v := (Bit7(rd) && Bit7(rr) && !Bit7(r)) || (!Bit7(rd) && !Bit7(rr) && Bit7(r));
    Flags(CarryBit(Bit7(rd), Bit7(rr), Bit7(r)), r == 0, n, v, n != v, CarryBit(Bit3(rd), Bit3(rr), Bit3(r)))
  }

  // ---------- one instruction on its operands ----------

  datatype Result = Result(r: byte, f: Flags)

  function Sub(rd: byte, rr: byte): Result {
    var r := (rd - rr) % 256;
    Result(r, SubFlags(rd, rr, r, r == 0))
  }

  function Sbc(rd: byte, rr: byte, f: Flags): Result {
    var r := (rd - rr - One(f.c)) % 256;
    Result(r, SubFlags(rd, rr, r, r == 0 && f.z))
  }

  function Cp(rd: byte, rr: byte): Flags {
    SubFlags(rd, rr, rd - rr, rd - rr == 0)
  }

  function Cpc(rd: byte, rr: byte, f: Flags): Flags {
    var r := rd - rr - One(f.c);
    SubFlags(rd, rr, r, r == 0 && f.z)
  }

  function Add(rd: byte, rr: byte): Result {
    var r := (rd + rr) % 256;
    Result(r, AddFlags(rd, rr, r))
  }

  function Adc(rd: byte, rr: byte, f: Flags): Result {
    var r := (rd + rr + One(f.c)) % 256;
    Result(r, AddFlags(rd, rr, r))
  }

  function Lsr(rd: byte, f: Flags): Result {
    var r := rd / 2;
    var c, n := rd % 2 == 1, false;
    Result(r, Flags(c, r == 0, n, n != c, n != (n != c), f.h))
  }

  function Ror(rd: byte, f: Flags): Result {
    var r := rd / 2 + 128 * One(f.c);
    var c, n := rd % 2 == 1, Bit7(r);
    Result(r, Flags(c, r == 0, n, n != c, n != (n != c), Bit3(rd)))
  }

  // ---------- what the flag formulas mean for one byte ----------

  /** A byte as a signed number. */
  function Signed(x: byte): int {
    if x >= 128 then x - 256 else x
  }

  lemma Bit7Is(x: int)
    requires -512 <= x < 512
    ensures Bit7(x) <==> -384 <= x < -256 || -128 <= x < 0 || 128 <= x < 256 || 384 <= x
  {
    assert Pow2(7) == 128;
  }

  /** Borrow, overflow and signed order of a subtraction with borrow-in b. */
  lemma SubMeaning(rd: byte, rr: byte, b: bool, r: int, z: bool)
    requires r == rd - rr - One(b) || r == (rd - rr - One(b)) % 256
    ensures
      var f, d := SubFlags(rd, rr, r, z), Signed(rd) - Signed(rr) - One(b);
      (f.c <==> rd - rr - One(b) < 0) && (f.s <==> d < 0) && (f.v <==> !(-128 <= d < 128))
    ensures (rd - rr - One(b)) % 256 == rd - rr - One(b) + 256 * One(rd - rr - One(b) < 0)
  {
    var d := rd - rr - One(b);
    DivModUnique(d, 256, if d < 0 then -1 else 0, if d < 0 then d + 256 else d);
    Bit7Is(rd);
    Bit7Is(rr);
    Bit7Is(r);
    hide Bit7, Bit3;
  }

  /** The half carry of a subtraction is the borrow of the low digits. */
  lemma SubHalf(rd: byte, rr: byte, b: bool, r: int, z: bool)
    requires r == rd - rr - One(b) || r == (rd - rr - One(b)) % 256
    ensures SubFlags(rd, rr, r, z).h <==> rd % 16 - rr % 16 - One(b) < 0
  {
    var d := rd % 16 - rr % 16 - One(b);
    var d' := if d < 0 then d + 16 else d;
    Bit3Is(rd);
    Bit3Is(rr);
    Bit3Is(r);
    assert r % 16 == d' by {
      LowDigit(rd, rr, b, r);
    }
    hide Bit7, Bit3;
  }

  lemma Bit3Is(x: int)
    ensures Bit3(x) <==> x % 16 >= 8
  {
    assert Pow2(3) == 8;
  }

  lemma LowDigit(rd: byte, rr: byte, b: bool, r: int)
    requires r == rd - rr - One(b) || r == (rd - rr - One(b)) % 256
    ensures var d := rd % 16 - rr % 16 - One(b); r % 16 == if d < 0 then d + 16 else d
  {
  }

  lemma AddMeaning(rd: byte, rr: byte, b: bool)
    ensures
      var r := (rd + rr + One(b)) % 256;
      var f, d := AddFlags(rd, rr, r), Signed(rd) + Signed(rr) + One(b);
      && r == rd + rr + One(b) - 256 * One(f.c) && (f.s <==> d < 0) && (f.v <==> !(-128 <= d < 128))
      && (f.z <==> rd + rr + One(b) == 0 || rd + rr + One(b) == 256)
      && (f.n <==> 128 <= rd + rr + One(b) < 256 || 384 <= rd + rr + One(b))
  {
    var d := rd + rr + One(b);
    var r := d % 256;
    DivModUnique(d, 256, if d >= 256 then 1 else 0, if d >= 256 then d - 256 else d);
    Bit7Is(rd);
    Bit7Is(rr);
    Bit7Is(r);
    hide Bit7, Bit3;
  }

  lemma LowNibble(rd: byte, rr: byte, b: nat)
    requires b <= 1
    ensures var d := rd % 16 + rr % 16 + b; (rd + rr + b) % 256 % 16 == if d >= 16 then d - 16 else d
  {
  }

  lemma AddHalf(rd: byte, rr: byte, b: bool)
    ensures AddFlags(rd, rr, (rd + rr + One(b)) % 256).h <==> rd % 16 + rr % 16 + One(b) >= 16
  {
    var r := (rd + rr + One(b)) % 256;
    LowNibble(rd, rr, One(b));
    Bit3Is(rd);
    Bit3Is(rr);
    Bit3Is(r);
    hide Bit7, Bit3;
  }

  // ---------- wide numbers ----------

  function Pow256(n: nat): (p: nat)
    ensures p > 0
  {
    if n == 0 then 1 else 256 * Pow256(n - 1)
  }

  /** The number held by registers, lowest byte first. */
  function Value(x: seq<byte>): int {
    if x == [] then 0 else Value(x[..|x| - 1]) + x[|x| - 1] * Pow256(|x| - 1)
  }

  lemma {:induction false} ValueBound(x: seq<byte>)
    ensures 0 <= Value(x) < Pow256(|x|)
  {
    if x != [] {
      ValueBound(x[..|x| - 1]);
      DigitBound(x[|x| - 1], Pow256(|x| - 1));
    }
  }

  lemma DigitBound(d: byte, p: nat)
    ensures 0 <= d * p <= 255 * p
  {
  }

  /** The same number as a signed one. */
  function SignedValue(x: seq<byte>): int
    requires x != []
  {
    var n := |x| - 1;
    Value(x[..n]) + Signed(x[n]) * Pow256(n)
  }

  /** SUB on the lowest registers, then SBC on the others. */
  function SubChain(x: seq<byte>, y: seq<byte>): (r: (seq<byte>, Flags))
    requires |x| == |y| > 0
    ensures |r.0| == |x|
  {
    var n := |x| - 1;
    if n == 0 then var b := Sub(x[0], y[0]); ([b.r], b.f)
    else
      var low := SubChain(x[..n], y[..n]);
      var b := Sbc(x[n], y[n], low.1);
      (low.0 + [b.r], b.f)
  }

  /** CP on the lowest registers, then CPC on the others. */
  function CpChain(x: seq<byte>, y: seq<byte>): Flags
    requires |x| == |y| > 0
  {
    var n := |x| - 1;
    if n == 0 then Cp(x[0], y[0]) else Cpc(x[n], y[n], CpChain(x[..n], y[..n]))
  }

  /** ADD on the lowest registers, then ADC on the others. */
  function AddChain(x: seq<byte>, y: seq<byte>): (r: (seq<byte>, Flags))
    requires |x| == |y| > 0
    ensures |r.0| == |x|
  {
    var n := |x| - 1;
    if n == 0 then var b := Add(x[0], y[0]); ([b.r], b.f)
    else
      var low := AddChain(x[..n], y[..n]);
      var b := Adc(x[n], y[n], low.1);
      (low.0 + [b.r], b.f)
  }

  /** LSR on the highest register, then ROR on the others, downwards. */
  function ShiftChain(x: seq<byte>, f: Flags): (r: (seq<byte>, Flags))
    requires x != []
    ensures |r.0| == |x|
  {
    if |x| == 1 then var b := Lsr(x[0], f); ([b.r], b.f)
    else
      var high := ShiftChain(x[1..], f);
      var b := Ror(x[0], high.1);
      ([b.r] + high.0, b.f)
  }

  lemma {:induction false} ValueAppend(x: seq<byte>, b: byte)
    ensures Value(x + [b]) == Value(x) + b * Pow256(|x|)
    ensures SignedValue(x + [b]) == Value(x) + Signed(b) * Pow256(|x|)
  {
    assert (x + [b])[..|x|] == x;
  }

  lemma ValueSingle(x: seq<byte>)
    requires |x| == 1
    ensures Value(x) == x[0] && SignedValue(x) == Signed(x[0]) && Pow256(1) == 256
  {
    assert Value(x[..0]) == 0 && Pow256(0) == 1;
  }

  /** Numbers with d leading and low parts below p: the sign of the whole is that of the leading part. */
  lemma LeadingSign(d: int, low: int, p: int)
    requires 0 <= low < p
    ensures d * p + low < 0 <==> d < 0
  {
    if d < 0 {
      MulAtLeast(p, -d);
    } else if d > 0 {
      MulAtLeast(p, d);
    }
  }

  /** One step of a wide subtraction: xl - yl == rl - b * p below, x - y - b == r - b' * 256 on top. */
  lemma SubStep(xl: int, yl: int, rl: int, b: int, x: int, y: int, r: int, b': int, p: int)
    requires xl - yl == rl - b * p && x - y - b == r - b' * 256
    ensures (xl + x * p) - (yl + y * p) == (rl + r * p) - b' * (256 * p)
  {
    MulDistributes(p, x, y);
    MulDistributes(p, x - y, b);
    MulDistributes(p, r, b' * 256);
    MulAssociates(b', 256, p);
  }

  /** With borrow b, a difference of numbers is led by the difference of their top digits. */
  lemma LeadingDifference(xl: int, yl: int, rl: int, b: int, x: int, y: int, p: int)
    requires xl - yl == rl - b * p && 0 <= rl < p
    ensures var d := (xl + x * p) - (yl + y * p);
      && (d < 0 <==> x - y - b < 0) && (2 * d < -(256 * p) <==> x - y - b < -128)
      && (2 * d < 256 * p <==> x - y - b < 128)
  {
    MulDistributes(p, x, y);
    MulDistributes(p, x - y, b);
    LeadingAt(x - y - b, rl, p);
  }

  lemma LeadingAt(d: int, low: int, p: int)
    requires 0 <= low < p
    ensures var w := d * p + low;
      (w < 0 <==> d < 0) && (2 * w < -(256 * p) <==> d < -128) && (2 * w < 256 * p <==> d < 128)
  {
    LeadingSign(d, low, p);
    LeadingSign(d + 128, low, p);
    LeadingSign(d - 128, low, p);
    MulDistributes(p, d, 128);
  }

  /** Numbers are equal if and only if their low parts and their leading digits are. */
  lemma EqualStep(xl: int, yl: int, x: int, y: int, p: int)
    requires 0 <= xl < p && 0 <= yl < p
    ensures xl + x * p == yl + y * p <==> xl == yl && x == y
  {
    MulDistributes(p, x, y);
    if xl + x * p == yl + y * p {
      SmallMultiple(p, x - y);
    }
  }

  /** The outcome of a wide subtraction of numbers x and y below p, signed sx and sy: result r and flags f. */
  ghost predicate Subtracts(x: int, y: int, sx: int, sy: int, r: int, f: Flags, p: int) {
    && 0 <= x < p && 0 <= y < p && 0 <= r < p
    && x - y == r - One(f.c) * p
    && (f.c <==> x < y) && (f.z <==> x == y) && (f.s <==> sx < sy) && (f.v <==> !Representable(sx - sy, p))
  }

  /** SBC on top of a wide subtraction of the numbers below. */
  lemma SbcExtends(xl: int, yl: int, sxl: int, syl: int, rl: int, f: Flags, p: int, x: byte, y: byte)
    requires p > 0 && Subtracts(xl, yl, sxl, syl, rl, f, p)
    ensures
      var b := Sbc(x, y, f);
      Subtracts(xl + x * p, yl + y * p, xl + Signed(x) * p, yl + Signed(y) * p, rl + b.r * p, b.f, 256 * p)
  {
    var b := Sbc(x, y, f);
    SubMeaning(x, y, f.c, b.r, b.f.z);
    assert b.f.z == (b.r == 0 && f.z);
    hide Sbc, SubFlags, Bit7, Bit3;
    SubStep(xl, yl, rl, One(f.c), x, y, b.r, One(b.f.c), p);
    LeadingDifference(xl, yl, rl, One(f.c), Signed(x), Signed(y), p);
    LeadingDifference(xl, yl, rl, One(f.c), x, y, p);
    EqualStep(xl, yl, x, y, p);
    DigitBound(x, p);
    DigitBound(y, p);
    DigitBound(b.r, p);
  }

  lemma SubAlone(x: byte, y: byte)
    ensures var b := Sub(x, y); Subtracts(x, y, Signed(x), Signed(y), b.r, b.f, 256)
  {
    SubMeaning(x, y, false, Sub(x, y).r, Sub(x, y).f.z);
  }

  /**
    Wide subtraction: a chain of SUB and SBC computes the difference modulo 256^n;
    carry tells unsigned less, zero tells equal, sign tells signed less, and
    overflow tells that the signed difference does not fit.
   */
  lemma {:induction false} WideSubtraction(x: seq<byte>, y: seq<byte>)
    requires |x| == |y| > 0
    ensures
      var (r, f) := SubChain(x, y);
      Subtracts(Value(x), Value(y), SignedValue(x), SignedValue(y), Value(r), f, Pow256(|x|))
    decreases |x|
  {
    var n := |x| - 1;
    if n == 0 {
      var b := Sub(x[0], y[0]);
      SubAlone(x[0], y[0]);
      ValueSingle(x);
      ValueSingle(y);
      ValueSingle([b.r]);
      assert SubChain(x, y) == ([b.r], b.f);
      hide Value, SignedValue, Sub, Subtracts, SubChain, Pow256;
    } else {
      WideSubtraction(x[..n], y[..n]);
      var (rl, fl) := SubChain(x[..n], y[..n]);
      var b := Sbc(x[n], y[n], fl);
      ValueAppend(rl, b.r);
      assert SubChain(x, y) == (rl + [b.r], b.f);
      hide Sbc, Subtracts;
      SbcExtends(Value(x[..n]), Value(y[..n]), SignedValue(x[..n]), SignedValue(y[..n]), Value(rl), fl,
                 Pow256(n), x[n], y[n]);
    }
  }

  /** Bits 7 and 3 do not depend on whether the result is reduced to a byte. */
  lemma FlagsOfByte(rd: byte, rr: byte, d: int, z: bool)
    requires -256 <= d < 256
    ensures SubFlags(rd, rr, d, z) == SubFlags(rd, rr, d % 256, z)
  {
    DivModUnique(d, 256, if d < 0 then -1 else 0, if d < 0 then d + 256 else d);
    Bit7Is(d);
    Bit7Is(d % 256);
    Bit3Is(d);
    Bit3Is(d % 256);
    assert d % 16 == (d + 256) % 16;
    hide Bit7, Bit3;
  }

  /** The zero flag is the one that is asked for. */
  lemma FlagsZero(rd: byte, rr: byte, d: int, z: bool)
    ensures SubFlags(rd, rr, d, z) == SubFlags(rd, rr, d, false).(z := z)
  {
  }

  /** CPC does not reduce its result to a byte: that is harmless as long as Z excludes C. */
  lemma CpcLikeSbc(x: byte, y: byte, f: Flags)
    ensures Cp(x, y) == Sub(x, y).f
    ensures Cpc(x, y, f) == Sbc(x, y, f).f <==> !(f.z && f.c && x == 0 && y == 255)
  {
    hide Bit7, Bit3, BorrowBit, SubFlags;
    FlagsOfByte(x, y, x - y, x == y);
    var d := x - y - One(f.c);
    FlagsZero(x, y, d % 256, d == 0 && f.z);
    FlagsZero(x, y, d % 256, d % 256 == 0 && f.z);
    FlagsOfByte(x, y, d, d == 0 && f.z);
    DivModUnique(d, 256, if d < 0 then -1 else 0, if d < 0 then d + 256 else d);
    DivModUnique(x - y, 256, if x < y then -1 else 0, if x < y then x - y + 256 else x - y);
  }

  /** A chain of CP and CPC sets the same flags as a chain of SUB and SBC. */
  lemma {:induction false} WideCompare(x: seq<byte>, y: seq<byte>)
    requires |x| == |y| > 0
    ensures CpChain(x, y) == SubChain(x, y).1
    decreases |x|
  {
    var n := |x| - 1;
    if n == 0 {
      CpcLikeSbc(x[0], y[0], CpChain(x, y));
      hide Cp, Sub;
    } else {
      WideCompare(x[..n], y[..n]);
      WideSubtraction(x[..n], y[..n]);
      CpcLikeSbc(x[n], y[n], CpChain(x[..n], y[..n]));
      hide Cpc, Sbc, Value, SignedValue, Pow256;
    }
  }

  /** The outcome of a wide addition. */
  ghost predicate Adds(x: int, y: int, sx: int, sy: int, r: int, f: Flags, p: int) {
    && 0 <= x < p && 0 <= y < p && 0 <= r < p
    && x + y == r + One(f.c) * p
    && (f.s <==> sx + sy < 0) && (f.v <==> !Representable(sx + sy, p))
  }

  lemma AddStep(xl: int, yl: int, rl: int, c: int, x: int, y: int, r: int, c': int, p: int)
    requires xl + yl == rl + c * p && x + y + c == r + c' * 256
    ensures (xl + x * p) + (yl + y * p) == (rl + r * p) + c' * (256 * p)
  {
    MulDistributes(p, x, y);
    MulDistributes(p, x + y, c);
    MulDistributes(p, r, c' * 256);
    MulAssociates(c', 256, p);
  }

  lemma LeadingSum(xl: int, yl: int, rl: int, c: int, x: int, y: int, p: int)
    requires xl + yl == rl + c * p && 0 <= rl < p
    ensures var d := (xl + x * p) + (yl + y * p);
      && (d < 0 <==> x + y + c < 0) && (2 * d < -(256 * p) <==> x + y + c < -128)
      && (2 * d < 256 * p <==> x + y + c < 128)
  {
    MulDistributes(p, x, y);
    MulDistributes(p, x + y, c);
    LeadingAt(x + y + c, rl, p);
  }

  lemma AdcExtends(xl: int, yl: int, sxl: int, syl: int, rl: int, f: Flags, p: int, x: byte, y: byte)
    requires p > 0 && Adds(xl, yl, sxl, syl, rl, f, p)
    ensures
      var b := Adc(x, y, f);
      Adds(xl + x * p, yl + y * p, xl + Signed(x) * p, yl + Signed(y) * p, rl + b.r * p, b.f, 256 * p)
  {
    var b := Adc(x, y, f);
    AddMeaning(x, y, f.c);
    assert b.r == (x + y + One(f.c)) % 256 && b.f == AddFlags(x, y, b.r);
    hide Adc, AddFlags, Bit7, Bit3;
    AddStep(xl, yl, rl, One(f.c), x, y, b.r, One(b.f.c), p);
    LeadingSum(xl, yl, rl, One(f.c), Signed(x), Signed(y), p);
    DigitBound(x, p);
    DigitBound(y, p);
    DigitBound(b.r, p);
  }

  lemma AddAlone(x: byte, y: byte)
    ensures var b := Add(x, y); Adds(x, y, Signed(x), Signed(y), b.r, b.f, 256)
  {
    AddMeaning(x, y, false);
  }

  /** Wide addition: a chain of ADD and ADC computes the sum modulo 256^n; carry is the carry out. */
  lemma {:induction false} WideAddition(x: seq<byte>, y: seq<byte>)
    requires |x| == |y| > 0
    ensures
      var (r, f) := AddChain(x, y);
      Adds(Value(x), Value(y), SignedValue(x), SignedValue(y), Value(r), f, Pow256(|x|))
    decreases |x|
  {
    var n := |x| - 1;
    if n == 0 {
      var b := Add(x[0], y[0]);
      AddAlone(x[0], y[0]);
      ValueSingle(x);
      ValueSingle(y);
      ValueSingle([b.r]);
      assert AddChain(x, y) == ([b.r], b.f);
      hide Add, Adds, Value, SignedValue, AddChain, Pow256;
    } else {
      WideAddition(x[..n], y[..n]);
      var (rl, fl) := AddChain(x[..n], y[..n]);
      var b := Adc(x[n], y[n], fl);
      ValueAppend(rl, b.r);
      assert AddChain(x, y) == (rl + [b.r], b.f);
      hide Adc, Adds;
      AdcExtends(Value(x[..n]), Value(y[..n]), SignedValue(x[..n]), SignedValue(y[..n]), Value(rl), fl,
                 Pow256(n), x[n], y[n]);
    }
  }

  /**
    Zero and negative after an addition speak of the top byte alone: so zero tells that the
    whole sum is zero exactly if the bytes below are zero too, or the top byte is not.
   */
  lemma AdditionTop(x: seq<byte>, y: seq<byte>)
    requires |x| == |y| > 0
    ensures
      var (r, f) := AddChain(x, y);
      var n := |x| - 1;
      && (f.z <==> r[n] == 0) && (f.n <==> r[n] >= 128)
      && ((f.z <==> Value(r) == 0) <==> r[n] != 0 || Value(r[..n]) == 0)
  {
    hide AddChain, Value, Pow256;
    var (r, f) := AddChain(x, y);
    AddTopFlags(x, y);
    ZeroByTop(r);
  }

  lemma AddTopFlags(x: seq<byte>, y: seq<byte>)
    requires |x| == |y| > 0
    ensures var (r, f) := AddChain(x, y); (f.z <==> r[|x| - 1] == 0) && (f.n <==> r[|x| - 1] >= 128)
  {
    var (r, f) := AddChain(x, y);
    Bit7Is(r[|x| - 1]);
    hide Bit7, Bit3;
  }

  lemma ZeroByTop(r: seq<byte>)
    requires r != []
    ensures var n := |r| - 1; (r[n] == 0 <==> Value(r) == 0) <==> r[n] != 0 || Value(r[..n]) == 0
  {
    var n := |r| - 1;
    ValueBound(r[..n]);
    var low, top := Value(r[..n]), r[n];
    assert Value(r) == low + top * Pow256(n);
    hide Value, Pow256;
    if top != 0 {
      MulAtLeast(Pow256(n), top);
    }
  }

  /** Negative after a subtraction is the top bit. */
  lemma SubtractionTop(x: seq<byte>, y: seq<byte>)
    requires |x| == |y| > 0
    ensures var (r, f) := SubChain(x, y); f.n <==> r[|x| - 1] >= 128
  {
    var (r, f) := SubChain(x, y);
    Bit7Is(r[|x| - 1]);
    hide Bit7, Bit3;
  }

  lemma {:induction false} ValuePrepend(b: byte, x: seq<byte>)
    ensures Value([b] + x) == b + 256 * Value(x)
  {
    if x == [] {
      ValueSingle([b]);
    } else {
      var n := |x| - 1;
      ValuePrepend(b, x[..n]);
      assert ([b] + x)[..n + 1] == [b] + x[..n];
      MulAssociates(256, x[n], Pow256(n));
      MulDistributes(256, Value(x[..n]), x[n] * Pow256(n));
      MulAssociates(x[n], 256, Pow256(n));
    }
  }

  /** Wide shift: LSR and then RORs halve the number; carry is the bit shifted out. */
  lemma {:induction false} WideShift(x: seq<byte>, f: Flags)
    requires x != []
    ensures
      var (r, f') := ShiftChain(x, f);
      2 * Value(r) + One(f'.c) == Value(x)
    decreases |x|
  {
    if |x| == 1 {
      ValueSingle(x);
      ValueSingle(ShiftChain(x, f).0);
    } else {
      WideShift(x[1..], f);
      var (high, fh) := ShiftChain(x[1..], f);
      var b := Ror(x[0], fh);
      assert x == [x[0]] + x[1..];
      ValuePrepend(x[0], x[1..]);
      ValuePrepend(b.r, high);
    }
  }

  /**
    The other flags after a shift: zero and negative speak of the lowest byte, which is shifted
    last, so that negative is bit 8 of the number; sign is carry, and overflow tells whether
    negative and carry differ.  Half carry is bit 3 of the number, if that has two bytes or more.
   */
  lemma ShiftFlags(x: seq<byte>, f: Flags)
    requires x != []
    ensures
      var (r, f') := ShiftChain(x, f);
      && (f'.z <==> Value(r) % 256 == 0) && (f'.n <==> Value(x) / 256 % 2 == 1)
      && (f'.v <==> f'.n != f'.c) && f'.s == f'.c
      && f'.h == if |x| == 1 then f.h else Value(x) % 16 >= 8
  {
    hide Value, ShiftChain;
    var (r, f') := ShiftChain(x, f);
    LowByte(x);
    LowByte(r);
    if |x| == 1 {
      LsrMeaning(x, f);
      NoBytes(x[1..]);
    } else {
      var (high, fh) := ShiftChain(x[1..], f);
      WideShift(x[1..], f);
      DivModUnique(Value(x[1..]), 2, Value(high), One(fh.c));
      RorMeaning(x, f);
    }
  }

  /** The lowest byte of a number, and the number above it. */
  lemma LowByte(x: seq<byte>)
    requires x != []
    ensures Value(x) % 256 == x[0] && Value(x) / 256 == Value(x[1..]) && Value(x) % 16 == x[0] % 16
  {
    assert x == [x[0]] + x[1..];
    ValuePrepend(x[0], x[1..]);
    DivModUnique(Value(x), 256, Value(x[1..]), x[0]);
    LowNibbleOf(x[0], Value(x[1..]));
  }

  lemma LsrMeaning(x: seq<byte>, f: Flags)
    requires |x| == 1
    ensures
      var (r, f') := ShiftChain(x, f);
      && (f'.z <==> r[0] == 0) && !f'.n && (f'.v <==> f'.n != f'.c) && f'.s == f'.c && f'.h == f.h
  {
  }

  lemma RorMeaning(x: seq<byte>, f: Flags)
    requires |x| > 1
    ensures
      var (high, fh) := ShiftChain(x[1..], f);
      var (r, f') := ShiftChain(x, f);
      && (f'.z <==> r[0] == 0) && f'.n == fh.c && (f'.v <==> f'.n != f'.c) && f'.s == f'.c
      && (f'.h <==> x[0] % 16 >= 8)
  {
    var (high, fh) := ShiftChain(x[1..], f);
    Bit7Is(Ror(x[0], fh).r);
    Bit3Is(x[0]);
    hide Bit7, Bit3;
  }

  lemma NoBytes(x: seq<byte>)
    requires x == []
    ensures Value(x) == 0
  {
  }

  lemma LowNibbleOf(b: byte, high: int)
    ensures (b + 256 * high) % 16 == b % 16
  {
    var q, r := DivMod(b, 16);
    DivModUnique(b + 256 * high, 16, q + 16 * high, r);
  }

  // ---------- the instructions on the machine ----------

  /** The registers are the lowest data memory. */
  class Alu {
    var dm: array<byte>
    var sreg: Flags
    var pc: nat

    method ExecSub(rda: nat, rra: nat)
      requires rda < dm.Length && rra < dm.Length
      modifies this`sreg, this`pc, dm
      ensures var b := Sub(old(dm[rda]), old(dm[rra]));
        dm[..] == old(dm[..])[rda := b.r] && sreg == b.f && pc == old(pc) + 1
    {
      var rd: int, rr: int := dm[rda], dm[rra];
      var r: byte := (rd - rr) % 256;
      dm[rda] := r;
      pc := pc + 1;
      SetSubFlags(rd, rr, r, r == 0);
    }

    /** The flag updates that end SUB, SBC, CP and CPC, in terms of bits 7 and 3 of `buf` and of r. */
    method SetSubFlags(rd: byte, rr: byte, r: int, z: bool)
      modifies this`sreg
      ensures sreg == SubFlags(rd, rr, r, z)
    {
      sreg := sreg.(c := BorrowBit(Bit7(rd), Bit7(rr), Bit7(r)));
      sreg := sreg.(z := z);
      sreg := sreg.(n := Bit7(r));
      sreg := sreg.(v := (Bit7(rd) && !Bit7(rr) && !Bit7(r)) || (!Bit7(rd) && Bit7(rr) && Bit7(r)));
      sreg := sreg.(s := sreg.n != sreg.v);
      sreg := sreg.(h := BorrowBit(Bit3(rd), Bit3(rr), Bit3(r)));
    }

    method ExecSbc(rda: nat, rra: nat)
      requires rda < dm.Length && rra < dm.Length
      modifies this`sreg, this`pc, dm
      ensures var b := Sbc(old(dm[rda]), old(dm[rra]), old(sreg));
        dm[..] == old(dm[..])[rda := b.r] && sreg == b.f && pc == old(pc) + 1
    {
      var rd: int, rr: int := dm[rda], dm[rra];
      var r: byte := (rd - rr - One(sreg.c)) % 256;
      dm[rda] := r;
      pc := pc + 1;
      SetSubFlags(rd, rr, r, if r != 0 then false else sreg.z);
    }

    method ExecCp(rda: nat, rra: nat)
      requires rda < dm.Length && rra < dm.Length
      modifies this`sreg, this`pc
      ensures sreg == Cp(dm[rda], dm[rra]) && pc == old(pc) + 1
    {
      var rd: int, rr: int := dm[rda], dm[rra];
      var r := rd - rr;
      pc := pc + 1;
      SetSubFlags(rd, rr, r, r == 0);
    }

    method ExecCpc(rda: nat, rra: nat)
      requires rda < dm.Length && rra < dm.Length
      modifies this`sreg, this`pc
      ensures sreg == Cpc(dm[rda], dm[rra], old(sreg)) && pc == old(pc) + 1
    {
      var rd: int, rr: int := dm[rda], dm[rra];
      var r := rd - rr - One(sreg.c);
      pc := pc + 1;
      SetSubFlags(rd, rr, r, if r != 0 then false else sreg.z);
    }

    /** The flag updates that end ADD and ADC. */
    method SetAddFlags(rd: byte, rr: byte, r: byte)
      modifies this`sreg
      ensures sreg == AddFlags(rd, rr, r)
    {
      sreg := sreg.(c := CarryBit(Bit7(rd), Bit7(rr), Bit7(r)));
      sreg := sreg.(z := r == 0);
      sreg := sreg.(n := Bit7(r));
      sreg := sreg.(v := (Bit7(rd) && Bit7(rr) && !Bit7(r)) || (!Bit7(rd) && !Bit7(rr) && Bit7(r)));
      sreg := sreg.(s := sreg.n != sreg.v);
      sreg := sreg.(h := CarryBit(Bit3(rd), Bit3(rr), Bit3(r)));
    }

    method ExecAdd(rda: nat, rra: nat)
      requires rda < dm.Length && rra < dm.Length
      modifies this`sreg, this`pc, dm
      ensures var b := Add(old(dm[rda]), old(dm[rra]));
        dm[..] == old(dm[..])[rda := b.r] && sreg == b.f && pc == old(pc) + 1
    {
      var rd: int, rr: int := dm[rda], dm[rra];
      var r: byte := (rd + rr) % 256;
      dm[rda] := r;
      SetAddFlags(rd, rr, r);
      pc := pc + 1;
    }

    method ExecAdc(rda: nat, rra: nat)
      requires rda < dm.Length && rra < dm.Length
      modifies this`sreg, this`pc, dm
      ensures var b := Adc(old(dm[rda]), old(dm[rra]), old(sreg));
        dm[..] == old(dm[..])[rda := b.r] && sreg == b.f && pc == old(pc) + 1
    {
      var rd: int, rr: int := dm[rda], dm[rra];
      var r: byte := (rd + rr + One(sreg.c)) % 256;
      dm[rda] := r;
      SetAddFlags(rd, rr, r);
      pc := pc + 1;
    }

    method ExecLsr(rda: nat)
      requires rda < dm.Length
      modifies this`sreg, this`pc, dm
      ensures var b := Lsr(old(dm[rda]), old(sreg));
        dm[..] == old(dm[..])[rda := b.r] && sreg == b.f && pc == old(pc) + 1
    {
      var rd := dm[rda];
      var r: byte := rd / 2;
      dm[rda] := r;
      pc := pc + 1;
      sreg := sreg.(c := rd % 2 == 1);
      sreg := sreg.(z := r == 0);
      sreg := sreg.(n := false);
      sreg := sreg.(v := sreg.n != sreg.c);
      sreg := sreg.(s := sreg.n != sreg.v);
    }

    method ExecRor(rda: nat)
      requires rda < dm.Length
      modifies this`sreg, this`pc, dm
      ensures var b := Ror(old(dm[rda]), old(sreg));
        dm[..] == old(dm[..])[rda := b.r] && sreg == b.f && pc == old(pc) + 1
    {
      var rd := dm[rda];
      var r: byte := rd / 2 + 128 * One(sreg.c);
      dm[rda] := r;
      pc := pc + 1;
      sreg := sreg.(c := rd % 2 == 1);
      sreg := sreg.(z := r == 0);
      sreg := sreg.(n := Bit7(r));
      sreg := sreg.(v := sreg.n != sreg.c);
      sreg := sreg.(s := sreg.n != sreg.v);
      sreg := sreg.(h := Bit3(rd));
    }

    /** One SBC of the program below. */
    method RunSbc(ghost mem: seq<byte>, rd: nat, rr: nat, i: nat)
      requires |mem| == dm.Length && i > 0 && rd + i < dm.Length && rr + i < dm.Length && (rd <= rr || rr + i < rd)
      requires Subtracting(mem, rd, rr, i, dm[..], sreg)
      modifies this`sreg, this`pc, dm
      ensures Subtracting(mem, rd, rr, i + 1, dm[..], sreg) && pc == old(pc) + 1
    {
      NextSbc(mem, rd, rr, i, dm[..], sreg);
      hide *;
      ExecSbc(rd + i, rr + i);
    }

    /**
      The program SUB rd, rr; SBC rd+1, rr+1; ... on n registers: the block at rd
      becomes the difference, and nothing else changes.  The blocks may be the same,
      or overlap as long as no register is read after it was written.
     */
    method RunSubtraction(rd: nat, rr: nat, n: nat)
      requires n > 0 && rd + n <= dm.Length && rr + n <= dm.Length && (rd <= rr || rr + n <= rd)
      modifies this`sreg, this`pc, dm
      ensures BlockSubtracted(old(dm[..]), rd, rr, n, dm[..], sreg) && pc == old(pc) + n
    {
      ghost var mem := dm[..];
      FirstSub(mem, rd, rr);
      hide *;
      ExecSub(rd, rr);
      var i := 1;
      while i < n
        invariant 1 <= i <= n && pc == old(pc) + i
        invariant Subtracting(mem, rd, rr, i, dm[..], sreg)
      {
        RunSbc(mem, rd, rr, i);
        i := i + 1;
      }
      SubtractionDone(mem, rd, rr, n, dm[..], sreg);
    }

    /** One ADC of the program below. */
    method RunAdc(ghost mem: seq<byte>, rd: nat, rr: nat, i: nat)
      requires |mem| == dm.Length && i > 0 && rd + i < dm.Length && rr + i < dm.Length && (rd <= rr || rr + i < rd)
      requires Adding(mem, rd, rr, i, dm[..], sreg)
      modifies this`sreg, this`pc, dm
      ensures Adding(mem, rd, rr, i + 1, dm[..], sreg) && pc == old(pc) + 1
    {
      NextAdc(mem, rd, rr, i, dm[..], sreg);
      hide *;
      ExecAdc(rd + i, rr + i);
    }

    /** The program ADD rd, rr; ADC rd+1, rr+1; ... on n registers. */
    method RunAddition(rd: nat, rr: nat, n: nat)
      requires n > 0 && rd + n <= dm.Length && rr + n <= dm.Length && (rd <= rr || rr + n <= rd)
      modifies this`sreg, this`pc, dm
      ensures BlockAdded(old(dm[..]), rd, rr, n, dm[..], sreg) && pc == old(pc) + n
    {
      hide *;
      ghost var mem := dm[..];
      FirstAdd(mem, rd, rr);
      ExecAdd(rd, rr);
      var i := 1;
      while i < n
        invariant 1 <= i <= n && pc == old(pc) + i
        invariant Adding(mem, rd, rr, i, dm[..], sreg)
      {
        RunAdc(mem, rd, rr, i);
        i := i + 1;
      }
      AdditionDone(mem, rd, rr, n, dm[..], sreg);
    }

    /** One ROR of the program below. */
    method RunRor(ghost mem: seq<byte>, end: nat, i: nat, ghost f0: Flags)
      requires |mem| == dm.Length && 0 < i < end <= dm.Length && Shifting(mem, end, i, f0, dm[..], sreg)
      modifies this`sreg, this`pc, dm
      ensures Shifting(mem, end, i + 1, f0, dm[..], sreg) && pc == old(pc) + 1
    {
      NextRor(mem, end, i, f0, dm[..], sreg);
      hide *;
      ExecRor(end - i - 1);
    }

    /** The program LSR rd+n-1; ROR rd+n-2; ...; ROR rd: the block at rd is halved, and nothing else changes. */
    method RunShift(rd: nat, n: nat)
      requires n > 0 && rd + n <= dm.Length
      modifies this`sreg, this`pc, dm
      ensures BlockHalved(old(dm[..]), rd, n, dm[..], sreg) && pc == old(pc) + n
    {
      ghost var mem, f0 := dm[..], sreg;
      FirstLsr(mem, rd + n, f0);
      hide *;
      ExecLsr(rd + n - 1);
      var i := 1;
      while i < n
        invariant 1 <= i <= n && pc == old(pc) + i
        invariant Shifting(mem, rd + n, i, f0, dm[..], sreg)
      {
        RunRor(mem, rd + n, i, f0);
        i := i + 1;
      }
      ShiftDone(mem, rd, n, f0, dm[..], sreg);
    }
  }

  /** Memory mem with block r written at address a. */
  function With(mem: seq<byte>, a: nat, r: seq<byte>): (mem': seq<byte>)
    requires a + |r| <= |mem|
    ensures |mem'| == |mem|
  {
    mem[..a] + r + mem[a + |r|..]
  }

  /** In mem' the block at rd is the difference of the blocks at rd and rr of mem; the rest is unchanged. */
  ghost predicate BlockSubtracted(mem: seq<byte>, rd: nat, rr: nat, n: nat, mem': seq<byte>, f: Flags)
    requires n > 0 && rd + n <= |mem| && rr + n <= |mem|
  {
    && |mem'| == |mem|
    && var x, y, r := mem[rd..rd + n], mem[rr..rr + n], mem'[rd..rd + n];
      && mem' == With(mem, rd, r) && Value(r) == (Value(x) - Value(y)) % Pow256(n)
      && (f.c <==> Value(x) < Value(y)) && (f.z <==> Value(x) == Value(y))
      && (f.s <==> SignedValue(x) < SignedValue(y))
      && (f.v <==> !Representable(SignedValue(x) - SignedValue(y), Pow256(n)))
      && (f.n <==> r[n - 1] >= 128)
  }

  /** A number fits a block of p values as a signed one. */
  predicate Representable(d: int, p: int) {
    -p <= 2 * d < p
  }

  /** In mem' the block at rd is the sum of the blocks at rd and rr of mem; the rest is unchanged. */
  ghost predicate BlockAdded(mem: seq<byte>, rd: nat, rr: nat, n: nat, mem': seq<byte>, f: Flags)
    requires n > 0 && rd + n <= |mem| && rr + n <= |mem|
  {
    && |mem'| == |mem|
    && var x, y, r := mem[rd..rd + n], mem[rr..rr + n], mem'[rd..rd + n];
      && mem' == With(mem, rd, r) && Value(r) == (Value(x) + Value(y)) % Pow256(n)
      && (f.c <==> Value(x) + Value(y) >= Pow256(n))
      && (f.s <==> SignedValue(x) + SignedValue(y) < 0)
      && (f.v <==> !Representable(SignedValue(x) + SignedValue(y), Pow256(n)))
      && (f.z <==> r[n - 1] == 0) && (f.n <==> r[n - 1] >= 128)
  }

  /** In mem' the block at rd is half of what it was in mem, carry is the bit shifted out, and so on. */
  ghost predicate BlockHalved(mem: seq<byte>, rd: nat, n: nat, mem': seq<byte>, f: Flags)
    requires rd + n <= |mem|
  {
    && |mem'| == |mem|
    && var x, r := mem[rd..rd + n], mem'[rd..rd + n];
      && mem' == With(mem, rd, r) && Value(r) == Value(x) / 2 && One(f.c) == Value(x) % 2
      && (f.z <==> Value(r) % 256 == 0) && (f.n <==> Value(x) / 256 % 2 == 1)
      && (f.v <==> f.n != f.c) && f.s == f.c && (n >= 2 ==> (f.h <==> Value(x) % 16 >= 8))
  }

  lemma WithAt(mem: seq<byte>, a: nat, r: seq<byte>, k: nat)
    requires a + |r| <= |mem| && k < |mem|
    ensures With(mem, a, r)[k] == if a <= k < a + |r| then r[k - a] else mem[k]
  {
  }

  lemma WithNext(mem: seq<byte>, a: nat, r: seq<byte>, b: byte)
    requires a + |r| < |mem|
    ensures With(mem, a, r)[a + |r| := b] == With(mem, a, r + [b])
  {
  }

  lemma WithBlock(mem: seq<byte>, a: nat, r: seq<byte>)
    requires a + |r| <= |mem|
    ensures With(mem, a, r)[a..a + |r|] == r
  {
  }

  /** i instructions of the program have turned mem into mem' and set flags f. */
  ghost predicate Subtracting(mem: seq<byte>, rd: nat, rr: nat, i: nat, mem': seq<byte>, f: Flags)
    requires i > 0 && rd + i <= |mem| && rr + i <= |mem|
  {
    var (r, f') := SubChain(mem[rd..rd + i], mem[rr..rr + i]);
    f == f' && mem' == With(mem, rd, r)
  }

  lemma FirstSub(mem: seq<byte>, rd: nat, rr: nat)
    requires rd < |mem| && rr < |mem|
    ensures var b := Sub(mem[rd], mem[rr]); Subtracting(mem, rd, rr, 1, mem[rd := b.r], b.f)
  {
  }

  /** The chain on one more register. */
  lemma ChainNext(mem: seq<byte>, rd: nat, rr: nat, i: nat)
    requires i > 0 && rd + i < |mem| && rr + i < |mem|
    ensures var (r, f) := SubChain(mem[rd..rd + i], mem[rr..rr + i]); var b := Sbc(mem[rd + i], mem[rr + i], f);
            SubChain(mem[rd..rd + i + 1], mem[rr..rr + i + 1]) == (r + [b.r], b.f)
  {
    hide Sbc;
    var x, y := mem[rd..rd + i + 1], mem[rr..rr + i + 1];
    assert x[..i] == mem[rd..rd + i] && y[..i] == mem[rr..rr + i];
  }

  lemma NextSbc(mem: seq<byte>, rd: nat, rr: nat, i: nat, mem': seq<byte>, f: Flags)
    requires i > 0 && rd + i < |mem| && rr + i < |mem| && (rd <= rr || rr + i < rd)
    requires Subtracting(mem, rd, rr, i, mem', f)
    ensures |mem'| == |mem|
    ensures var b := Sbc(mem'[rd + i], mem'[rr + i], f); Subtracting(mem, rd, rr, i + 1, mem'[rd + i := b.r], b.f)
  {
    hide SubChain, Sbc, With;
    var (r, f') := SubChain(mem[rd..rd + i], mem[rr..rr + i]);
    WithAt(mem, rd, r, rd + i);
    WithAt(mem, rd, r, rr + i);
    ChainNext(mem, rd, rr, i);
    WithNext(mem, rd, r, Sbc(mem[rd + i], mem[rr + i], f).r);
  }

  lemma SubtractionDone(mem: seq<byte>, rd: nat, rr: nat, n: nat, mem': seq<byte>, f: Flags)
    requires n > 0 && rd + n <= |mem| && rr + n <= |mem|
    requires Subtracting(mem, rd, rr, n, mem', f)
    ensures BlockSubtracted(mem, rd, rr, n, mem', f)
  {
    hide SubChain, Value, SignedValue, Pow256, With;
    var x, y := mem[rd..rd + n], mem[rr..rr + n];
    var (r, f') := SubChain(x, y);
    WithBlock(mem, rd, r);
    WideSubtraction(x, y);
    SubtractionTop(x, y);
    DifferenceIsMod(Value(x), Value(y), Value(r), One(f.c), Pow256(n));
  }

  /** i instructions of the addition have turned mem into mem' and set flags f. */
  ghost predicate Adding(mem: seq<byte>, rd: nat, rr: nat, i: nat, mem': seq<byte>, f: Flags)
    requires i > 0 && rd + i <= |mem| && rr + i <= |mem|
  {
    var (r, f') := AddChain(mem[rd..rd + i], mem[rr..rr + i]);
    f == f' && mem' == With(mem, rd, r)
  }

  lemma FirstAdd(mem: seq<byte>, rd: nat, rr: nat)
    requires rd < |mem| && rr < |mem|
    ensures var b := Add(mem[rd], mem[rr]); Adding(mem, rd, rr, 1, mem[rd := b.r], b.f)
  {
  }

  lemma AddChainNext(mem: seq<byte>, rd: nat, rr: nat, i: nat)
    requires i > 0 && rd + i < |mem| && rr + i < |mem|
    ensures var (r, f) := AddChain(mem[rd..rd + i], mem[rr..rr + i]); var b := Adc(mem[rd + i], mem[rr + i], f);
            AddChain(mem[rd..rd + i + 1], mem[rr..rr + i + 1]) == (r + [b.r], b.f)
  {
    hide Adc;
    var x, y := mem[rd..rd + i + 1], mem[rr..rr + i + 1];
    assert x[..i] == mem[rd..rd + i] && y[..i] == mem[rr..rr + i];
  }

  lemma NextAdc(mem: seq<byte>, rd: nat, rr: nat, i: nat, mem': seq<byte>, f: Flags)
    requires i > 0 && rd + i < |mem| && rr + i < |mem| && (rd <= rr || rr + i < rd)
    requires Adding(mem, rd, rr, i, mem', f)
    ensures |mem'| == |mem|
    ensures var b := Adc(mem'[rd + i], mem'[rr + i], f); Adding(mem, rd, rr, i + 1, mem'[rd + i := b.r], b.f)
  {
    hide AddChain, Adc, With;
    var (r, f') := AddChain(mem[rd..rd + i], mem[rr..rr + i]);
    WithAt(mem, rd, r, rd + i);
    WithAt(mem, rd, r, rr + i);
    AddChainNext(mem, rd, rr, i);
    WithNext(mem, rd, r, Adc(mem[rd + i], mem[rr + i], f).r);
  }

  lemma AdditionDone(mem: seq<byte>, rd: nat, rr: nat, n: nat, mem': seq<byte>, f: Flags)
    requires n > 0 && rd + n <= |mem| && rr + n <= |mem|
    requires Adding(mem, rd, rr, n, mem', f)
    ensures BlockAdded(mem, rd, rr, n, mem', f)
  {
    hide AddChain, Value, SignedValue, Pow256, With;
    var x, y := mem[rd..rd + n], mem[rr..rr + n];
    var (r, f') := AddChain(x, y);
    WithBlock(mem, rd, r);
    WideAddition(x, y);
    AdditionTop(x, y);
    DifferenceIsMod(Value(x), -Value(y), Value(r), -One(f.c), Pow256(n));
  }

  /** i instructions of the shift have turned mem into mem' and set flags f; f0 were those before. */
  ghost predicate Shifting(mem: seq<byte>, end: nat, i: nat, f0: Flags, mem': seq<byte>, f: Flags)
    requires 0 < i <= end <= |mem|
  {
    var (r, f') := ShiftChain(mem[end - i..end], f0);
    f == f' && mem' == With(mem, end - i, r)
  }

  lemma FirstLsr(mem: seq<byte>, end: nat, f0: Flags)
    requires 0 < end <= |mem|
    ensures var b := Lsr(mem[end - 1], f0); Shifting(mem, end, 1, f0, mem[end - 1 := b.r], b.f)
  {
  }

  lemma WithBefore(mem: seq<byte>, a: nat, r: seq<byte>, b: byte)
    requires 0 < a && a + |r| <= |mem|
    ensures With(mem, a, r)[a - 1 := b] == With(mem, a - 1, [b] + r)
  {
  }

  lemma ShiftChainNext(mem: seq<byte>, end: nat, i: nat, f0: Flags)
    requires 0 < i < end <= |mem|
    ensures var (r, f) := ShiftChain(mem[end - i..end], f0); var b := Ror(mem[end - i - 1], f);
            ShiftChain(mem[end - i - 1..end], f0) == ([b.r] + r, b.f)
  {
    hide Ror, Lsr;
    assert mem[end - i - 1..end][1..] == mem[end - i..end];
  }

  lemma NextRor(mem: seq<byte>, end: nat, i: nat, f0: Flags, mem': seq<byte>, f: Flags)
    requires 0 < i < end <= |mem| && Shifting(mem, end, i, f0, mem', f)
    ensures |mem'| == |mem|
    ensures var b := Ror(mem'[end - i - 1], f); Shifting(mem, end, i + 1, f0, mem'[end - i - 1 := b.r], b.f)
  {
    hide ShiftChain, Ror, With;
    var (r, f') := ShiftChain(mem[end - i..end], f0);
    WithAt(mem, end - i, r, end - i - 1);
    ShiftChainNext(mem, end, i, f0);
    WithBefore(mem, end - i, r, Ror(mem[end - i - 1], f).r);
  }

  lemma ShiftDone(mem: seq<byte>, rd: nat, n: nat, f0: Flags, mem': seq<byte>, f: Flags)
    requires n > 0 && rd + n <= |mem| && Shifting(mem, rd + n, n, f0, mem', f)
    ensures BlockHalved(mem, rd, n, mem', f)
  {
    hide ShiftChain, Value, With;
    var x := mem[rd..rd + n];
    var (r, f') := ShiftChain(x, f0);
    WithBlock(mem, rd, r);
    WideShift(x, f0);
    ShiftFlags(x, f0);
  }

  lemma DifferenceIsMod(x: int, y: int, r: int, c: int, p: int)
    requires x - y == r - c * p && 0 <= r < p
    ensures r == (x - y) % p
  {
    DivModUnique(x - y, p, -c, r);
  }
}

/** Machine words: 32- and 64-bit wrap-around, C's truncating division, the
    bitwise operators the library uses, and the two- and three-word arithmetic
    macros of ntp_fp.h. */
module Words {

  const TWO31 := 0x8000_0000
  const TWO32 := 0x1_0000_0000
  const TWO63 := 0x8000_0000_0000_0000
  const TWO64 := 0x1_0000_0000_0000_0000
  const TWO96 := 0x1_0000_0000_0000_0000_0000_0000

  type u32 = x: int | 0 <= x < 0x1_0000_0000

  /** Conversion to an unsigned word. */
  function U32(x: int): (r: int)
    ensures 0 <= r < TWO32
  { x % TWO32 }

  function U64(x: int): (r: int)
    ensures 0 <= r < TWO64
  { x % TWO64 }

  /** Two's complement reading of the low 32 (64) bits. */
  function S32(x: int): int { if U32(x) >= TWO31 then U32(x) - TWO32 else U32(x) }

  function S64(x: int): int { if U64(x) >= TWO63 then U64(x) - TWO64 else U64(x) }

  predicate InInt32(x: int) { -TWO31 <= x < TWO31 }

  predicate InInt64(x: int) { -TWO63 <= x < TWO63 }

  /** The unary operator ~ on a 32-bit word. */
  function Not32(x: u32): (r: int)
    ensures 0 <= r < TWO32
  { TWO32 - 1 - x }

  /** Taking k turns off a value that then lies in range is what wrapping does. */
  lemma Wrap32(x: int, k: int)
    requires 0 <= x - k * TWO32 < TWO32
    ensures U32(x) == x - k * TWO32
  {
    DivModUnique(x, TWO32, k, x - k * TWO32);
  }

  lemma Wrap64(x: int, k: int)
    requires 0 <= x - k * TWO64 < TWO64
    ensures U64(x) == x - k * TWO64
  {
    DivModUnique(x, TWO64, k, x - k * TWO64);
  }

  /** Values a whole number of turns apart wrap to the same. */
  lemma SameLow64(x: int, y: int, k: int)
    requires x == y + k * TWO64
    ensures U64(x) == U64(y)
  {
    var q := Turns64(y);
    hide U64;
    Wrap64(y, q);
    Wrap64(x, q + k);
  }

  lemma Turns64(x: int) returns (q: int)
    ensures U64(x) == x - q * TWO64
  {
    q := x / TWO64;
  }

  /** Wrapping the parts of a sum or a negation changes nothing once it is wrapped. */
  lemma U64Plus(x: int, y: int)
    ensures U64(U64(x) + y) == U64(x + y)
  {
    hide U64;
    var q := Turns64(x);
    SameLow64(U64(x) + y, x + y, -q);
  }

  lemma U64Sum(x: int, y: int)
    ensures U64(U64(x) + U64(y)) == U64(x + y)
  {
    hide U64;
    U64Plus(x, U64(y));
    U64Plus(y, x);
  }

  lemma U64Neg(x: int)
    ensures U64(-U64(x)) == U64(-x)
  {
    hide U64;
    var q := Turns64(x);
    SameLow64(-U64(x), -x, q);
  }

  /** A number of 2^32 units and a fraction of one, in two words. */
  lemma HighWord(s: int, f: int)
    requires 0 <= f < TWO32
    ensures U32(s) * TWO32 + f == U64(s * TWO32 + f)
  {
    var q := s / TWO32;
    assert s == TWO32 * q + U32(s);
    Wrap64(s * TWO32 + f, q);
  }

  lemma LowOfU64(x: int)
    ensures U32(U64(x)) == U32(x)
  {
    var q := Turns64(x);
    var k := x / TWO32;
    hide U64;
    Wrap32(x, k);
    Wrap32(U64(x), k - q * TWO32);
  }

  /** C's `/`: truncates toward zero (positive divisor). */
  function TruncDiv(a: int, b: int): int
    requires b > 0
  {
    if a >= 0 then a / b else -(-a / b)
  }

  /** C's `%`: takes the sign of the dividend (positive divisor). */
  function TruncMod(a: int, b: int): int
    requires b > 0
  {
    if a >= 0 then a % b else -(-a % b)
  }

  /** The correction every manual floor division of the library applies after a
      truncating one yields exactly the floor quotient and the remainder in 0..b. */
  lemma FloorFix(a: int, b: int)
    requires b > 0
    ensures TruncMod(a, b) >= 0 ==> TruncDiv(a, b) == a / b && TruncMod(a, b) == a % b
    ensures TruncMod(a, b) < 0 ==> TruncDiv(a, b) - 1 == a / b && TruncMod(a, b) + b == a % b
  {
    if a < 0 {
      var q, r := -a / b, -a % b;
      assert -a == b * q + r;
      if r == 0 {
        DivModUnique(a, b, -q, 0);
      } else {
        assert a == b * (-q - 1) + (b - r);
        DivModUnique(a, b, -q - 1, b - r);
      }
    }
  }

  lemma DivModUnique(a: int, b: int, q: int, r: int)
    requires b > 0 && a == b * q + r && 0 <= r < b
    ensures a / b == q && a % b == r
  {
    var d := a / b - q;
    assert b * d == r - a % b;
    if d >= 1 {
      MulMono(b, 1, d);
    } else if d <= -1 {
      MulMono(b, d, -1);
    }
  }

  predicate Near(x: int, bound: int) { -bound <= x <= bound }

  lemma MulMono(b: int, x: int, y: int)
    requires b >= 0 && x <= y
    ensures b * x <= b * y
  {
  }

  // ---------------------------------------------------------------- bitwise

  function Pow2(k: nat): (p: nat)
    ensures p > 0
  {
    if k == 0 then 1 else 2 * Pow2(k - 1)
  }

  lemma Pow2Values()
    ensures Pow2(7) == 128 && Pow2(16) == 65536 && Pow2(25) == 0x200_0000
  {
    assert Pow2(4) == 16;
    assert Pow2(8) == 256;
    assert Pow2(12) == 4096;
    assert Pow2(16) == 65536;
    assert Pow2(20) == 0x10_0000;
    assert Pow2(24) == 0x100_0000;
  }

  /** Bitwise or. */
  function BitOr(a: nat, b: nat): nat
  {
    if a == 0 && b == 0 then 0
    else 2 * BitOr(a / 2, b / 2) + (if a % 2 == 1 || b % 2 == 1 then 1 else 0)
  }

  /** Bitwise and. */
  function BitAnd(a: nat, b: nat): nat
  {
    if a == 0 || b == 0 then 0
    else 2 * BitAnd(a / 2, b / 2) + (if a % 2 == 1 && b % 2 == 1 then 1 else 0)
  }

  /** Or-ing a field into cleared low bits is addition. */
  lemma {:induction false} BitOrDisjoint(a: nat, b: nat, k: nat)
    requires a % Pow2(k) == 0 && b < Pow2(k)
    ensures BitOr(a, b) == a + b
    decreases k, a
  {
    if k == 0 {
      BitOrZero(a);
    } else if a != 0 || b != 0 {
      var p := Pow2(k - 1);
      var q := a / Pow2(k);
      assert a == 2 * (p * q) by {
        assert a == Pow2(k) * q;
      }
      assert a % 2 == 0 && a / 2 == p * q;
      DivModUnique(a / 2, p, q, 0);
      assert b / 2 < p;
      BitOrDisjoint(a / 2, b / 2, k - 1);
    }
  }

  lemma {:induction false} BitOrCommutes(a: nat, b: nat)
    ensures BitOr(a, b) == BitOr(b, a)
  {
    if a != 0 || b != 0 {
      BitOrCommutes(a / 2, b / 2);
    }
  }

  lemma {:induction false} BitOrZero(a: nat)
    ensures BitOr(a, 0) == a
  {
    if a != 0 {
      BitOrZero(a / 2);
    }
  }

  /** Masking with 2^k - 1 is the remainder by 2^k. */
  lemma {:induction false} BitAndMask(a: nat, k: nat)
    ensures BitAnd(a, Pow2(k) - 1) == a % Pow2(k)
    decreases k
  {
    if k != 0 {
      BitAndMask(a / 2, k - 1);
      BitAndStep(a, Pow2(k - 1));
      HalveMod(a, Pow2(k - 1));
    }
  }

  lemma BitAndStep(a: nat, p: nat)
    requires p > 0
    ensures BitAnd(a, 2 * p - 1) == 2 * BitAnd(a / 2, p - 1) + a % 2
  {
    var m := 2 * p - 1;
    assert m / 2 == p - 1 && m % 2 == 1;
  }

  lemma HalveMod(a: nat, p: nat)
    requires p > 0
    ensures a % (2 * p) == 2 * ((a / 2) % p) + a % 2
  {
    var q, r := (a / 2) / p, (a / 2) % p;
    assert a / 2 == p * q + r;
    assert a == (2 * p) * q + (2 * r + a % 2);
    DivModUnique(a, 2 * p, q, 2 * r + a % 2);
  }

  // ------------------------------------------------- two-word arithmetic

  /** A 64-bit quantity held in two 32-bit words (vint64 and l_fp). */
  datatype Wide = Wide(hi: u32, lo: u32) {
    function Value(): int { hi * TWO32 + lo }

    function Signed(): int { S64(Value()) }
  }

  function Split64(x: int): (w: Wide)
    requires 0 <= x < TWO64
    ensures w.Value() == x
  {
    Wide(x / TWO32, x % TWO32)
  }

  lemma ValueInjective(a: Wide, b: Wide)
    requires a.Value() == b.Value()
    ensures a == b
  {
  }

  function Carry(c: bool): u32 { if c then 1 else 0 }

  /** M_NEG */
  function Neg(v: Wide): (r: Wide)
    ensures r.Value() == U64(-v.Value())
  {
    NegWords(v);
    var lo := U32(Not32(v.lo) + 1);
    Wide(U32(Not32(v.hi) + Carry(lo == 0)), lo)
  }

  lemma NegWords(v: Wide)
    ensures var lo := U32(Not32(v.lo) + 1);
            U32(Not32(v.hi) + Carry(lo == 0)) * TWO32 + lo == U64(-v.Value())
  {
    Wrap32(Not32(v.lo) + 1, if v.lo == 0 then 1 else 0);
    var c := Carry(v.lo == 0);
    Wrap32(Not32(v.hi) + c, if v.hi == 0 && v.lo == 0 then 1 else 0);
    Wrap64(-v.Value(), if v.hi == 0 && v.lo == 0 then 0 else -1);
  }

  /** M_ADD */
  function Add(r: Wide, a: Wide): (s: Wide)
    ensures s.Value() == U64(r.Value() + a.Value())
  {
    AddWords(r, a);
    var lo := U32(r.lo + a.lo);
    Wide(U32(r.hi + a.hi + Carry(lo < r.lo)), lo)
  }

  lemma AddWords(r: Wide, a: Wide)
    ensures var lo := U32(r.lo + a.lo);
            U32(r.hi + a.hi + Carry(lo < r.lo)) * TWO32 + lo == U64(r.Value() + a.Value())
  {
    var c := if r.lo + a.lo >= TWO32 then 1 else 0;
    Wrap32(r.lo + a.lo, c);
    var d := if r.hi + a.hi + c >= TWO32 then 1 else 0;
    Wrap32(r.hi + a.hi + c, d);
    Wrap64(r.Value() + a.Value(), d);
  }

  /** M_SUB */
  function Sub(r: Wide, a: Wide): (s: Wide)
    ensures s.Value() == U64(r.Value() - a.Value())
  {
    SubWords(r, a);
    var lo := U32(r.lo - a.lo);
    Wide(U32(r.hi - (a.hi + Carry(lo > r.lo))), lo)
  }

  lemma SubWords(r: Wide, a: Wide)
    ensures var lo := U32(r.lo - a.lo);
            U32(r.hi - (a.hi + Carry(lo > r.lo))) * TWO32 + lo == U64(r.Value() - a.Value())
  {
    var c := if r.lo < a.lo then 1 else 0;
    Wrap32(r.lo - a.lo, -c);
    var d := if r.hi < a.hi + c then 1 else 0;
    Wrap32(r.hi - (a.hi + c), -d);
    Wrap64(r.Value() - a.Value(), -d);
  }

  /** M_LSHIFT */
  function ShiftLeft(v: Wide): (s: Wide)
    ensures s.Value() == U64(2 * v.Value())
  {
    ShiftLeftWords(v);
    Wide(BitOr(U32(2 * v.hi), v.lo / TWO31), U32(2 * v.lo))
  }

  lemma ShiftLeftWords(v: Wide)
    ensures var hi := BitOr(U32(2 * v.hi), v.lo / TWO31);
            hi < TWO32 && hi * TWO32 + U32(2 * v.lo) == U64(2 * v.Value())
  {
    var c := if v.lo >= TWO31 then 1 else 0;
    var d := if v.hi >= TWO31 then 1 else 0;
    Wrap32(2 * v.lo, c);
    Wrap32(2 * v.hi, d);
    assert U32(2 * v.hi) == 2 * (v.hi - d * TWO31);
    assert Pow2(1) == 2;
    BitOrDisjoint(U32(2 * v.hi), v.lo / TWO31, 1);
    Wrap64(2 * v.Value(), d);
  }

  /** A 96-bit quantity in three words. */
  datatype Wide3 = Wide3(over: u32, hi: u32, lo: u32) {
    function Value(): int { (over * TWO32 + hi) * TWO32 + lo }
  }

  /** M_ADD3: the two conditional carries into the overflow word are or-ed. */
  function Add3(r: Wide3, a: Wide3): (s: Wide3)
    ensures s.Value() == (r.Value() + a.Value()) % TWO96
  {
    var lo := U32(r.lo + a.lo);
    var c0 := Carry(lo < r.lo);
    var hi0 := U32(r.hi + c0);
    var c1 := Carry(hi0 < c0);
    var hi := U32(hi0 + a.hi);
    var c2 := Carry(hi < hi0);
    Add3Words(r, a, lo, c0, hi0, c1, hi, c2);
    Wide3(U32(r.over + a.over + BitOr(c1, c2)), hi, lo)
  }

  lemma Add3Words(r: Wide3, a: Wide3, lo: u32, c0: u32, hi0: u32, c1: u32, hi: u32, c2: u32)
    requires lo == U32(r.lo + a.lo) && c0 == Carry(lo < r.lo)
    requires hi0 == U32(r.hi + c0) && c1 == Carry(hi0 < c0)
    requires hi == U32(hi0 + a.hi) && c2 == Carry(hi < hi0)
    ensures Wide3(U32(r.over + a.over + BitOr(c1, c2)), hi, lo).Value() == (r.Value() + a.Value()) % TWO96
  {
    hide U32, BitOr;
    CarryOut(r.lo, a.lo);
    CarryOut(c0, r.hi);
    CarryOut(hi0, a.hi);
    var over := r.over + a.over + c1 + c2;
    var k := if over >= TWO32 then 1 else 0;
    Wrap32(over, k);
    OrOfCarries(c1, c2);
    Sum96(r, a, lo, c0, hi0, c1, hi, c2);
    Wrap96(r.Value() + a.Value(), k, Wide3(over - k * TWO32, hi, lo).Value());
  }

  lemma Sum96(r: Wide3, a: Wide3, lo: u32, c0: u32, hi0: u32, c1: u32, hi: u32, c2: u32)
    requires lo + TWO32 * c0 == r.lo + a.lo && hi0 + TWO32 * c1 == c0 + r.hi && hi + TWO32 * c2 == hi0 + a.hi
    ensures r.Value() + a.Value() == (r.over + a.over + c1 + c2) * TWO64 + hi * TWO32 + lo
  {
  }

  lemma OrOfCarries(a: nat, b: nat)
    requires a + b <= 1
    ensures BitOr(a, b) == a + b
  {
  }

  /** Comparing a wrapped sum with an operand recovers the carry. */
  lemma CarryOut(x: u32, y: u32)
    ensures U32(x + y) + TWO32 * Carry(U32(x + y) < x) == x + y
  {
    Wrap32(x + y, if x + y >= TWO32 then 1 else 0);
  }

  lemma Wrap96(x: int, k: int, v: int)
    requires x == k * TWO96 + v && 0 <= v < TWO96
    ensures x % TWO96 == v
  {
    DivModUnique(x, TWO96, k, v);
  }

  /** M_ISNEG */
  predicate IsNeg(v: Wide) { v.hi / TWO31 == 1 }

  lemma IsNegIsSign(v: Wide)
    ensures IsNeg(v) <==> v.Signed() < 0
  {
    assert v.Value() >= TWO63 <==> v.hi >= TWO31;
  }

  /** M_ISGT */
  predicate IsGt(a: Wide, b: Wide) { S32(a.hi) > S32(b.hi) || (a.hi == b.hi && a.lo > b.lo) }

  /** M_ISGTU */
  predicate IsGtU(a: Wide, b: Wide) { a.hi > b.hi || (a.hi == b.hi && a.lo > b.lo) }

  /** M_ISGEQ, which compares the high words through a wrapped difference. */
  predicate IsGeq(a: Wide, b: Wide)
  {
    U32(a.hi - b.hi + TWO31) > TWO31 || (a.hi == b.hi && a.lo >= b.lo)
  }

  /** A signed pair of words is its signed high word times 2^32 plus the low word. */
  lemma SignedParts(v: Wide)
    ensures v.Signed() == S32(v.hi) * TWO32 + v.lo
  {
  }

  lemma ComparisonsAgree(a: Wide, b: Wide)
    ensures IsGt(a, b) <==> a.Signed() > b.Signed()
    ensures IsGtU(a, b) <==> a.Value() > b.Value()
  {
    SignedParts(a);
    SignedParts(b);
    Wrap32(a.hi, 0);
    Wrap32(b.hi, 0);
    hide U32, U64, S64;
  }

  /** M_ISGEQ is documented as a signed comparison.  It is one exactly when the
      difference of the signed high words fits an int32. */
  lemma IsGeqExact(a: Wide, b: Wide)
    ensures (IsGeq(a, b) <==> a.Signed() >= b.Signed())
       <==> InInt32(S32(a.hi) - S32(b.hi))
  {
    SignedParts(a);
    SignedParts(b);
    hide S32, U32;
    SignOf32(a.hi);
    SignOf32(b.hi);
    WrappedDifference(a.hi, b.hi);
  }

  lemma SignOf32(x: u32)
    ensures S32(x) == x - (if x >= TWO31 then TWO32 else 0)
  {
    Wrap32(x, 0);
  }

  lemma WrappedDifference(x: u32, y: u32)
    ensures var d := S32(x) - S32(y);
            U32(x - y + TWO31) == d + TWO31 - (if d >= TWO31 then TWO32 else if d < -TWO31 then -TWO32 else 0)
  {
    hide S32, U32;
    SignOf32(x);
    SignOf32(y);
    var d := S32(x) - S32(y);
    var kx := if x >= TWO31 then 1 else 0;
    var ky := if y >= TWO31 then 1 else 0;
    Wrap32(x - y + TWO31, kx - ky + (if d >= TWO31 then 1 else if d < -TWO31 then -1 else 0));
  }

  /** 2147483647 >= -1, but M_ISGEQ says otherwise. */
  lemma IsGeqFails()
    ensures !IsGeq(Wide(0x7FFF_FFFF, 0), Wide(0xFFFF_FFFF, 0))
    ensures Wide(0x7FFF_FFFF, 0).Signed() >= Wide(0xFFFF_FFFF, 0).Signed()
  {
  }
}

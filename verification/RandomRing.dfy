/** libntp/ntp_random.c: the additive feedback generator of degree 31, its seeding by
    the multiplicative generator of Park and Miller, and its two cycling pointers. */
module RandomRing {
  import opened Words

  const DEG := 31
  const SEP := 3
  const MODULUS := 0x7fff_ffff

  // ------------------------------------------------------------------- seeding

  /** good_rand: 7^5 * x mod (2^31 - 1) in pieces that stay small. */
  function GoodRand(x: int): int
  {
    var hi, lo := TruncDiv(x, 127773), TruncMod(x, 127773);
    var y := 16807 * lo - 2836 * hi;
    if y <= 0 then y + MODULUS else y
  }

  /** Numbers below this size keep the quotient by 127773 small enough for one step to
      land in 1 .. 2^31 - 1; all 32-bit seeds, signed or not, are. */
  const REACH := 127773 * 757223

  /** For every x the result is congruent to 16807 x, and for x within reach it is that
      residue, with 2^31 - 1 in place of 0. */
  lemma GoodRandIsResidue(x: int)
    ensures (GoodRand(x) - 16807 * x) % MODULUS == 0
    ensures Near(x, REACH - 1) ==> GoodRand(x) == if x % MODULUS == 0 then MODULUS else 16807 * x % MODULUS
    ensures Near(x, REACH - 1) ==> 0 < GoodRand(x) <= MODULUS && (GoodRand(x) == MODULUS <==> x % MODULUS == 0)
  {
    var k := GoodRandTurns(x);
    DivModUnique(GoodRand(x) - 16807 * x, MODULUS, k, 0);
    NoZeroDivisor(x);
    if Near(x, REACH - 1) {
      GoodRandRange(x);
      if GoodRand(x) == MODULUS {
        DivModUnique(16807 * x, MODULUS, 1 - k, 0);
      } else {
        DivModUnique(16807 * x, MODULUS, -k, GoodRand(x));
      }
    }
  }

  lemma GoodRandTurns(x: int) returns (k: int)
    ensures GoodRand(x) - 16807 * x == MODULUS * k
  {
    var hi, lo := Pieces(x);
    k := if 16807 * lo - 2836 * hi <= 0 then 1 - hi else -hi;
  }

  lemma Pieces(x: int) returns (hi: int, lo: int)
    ensures hi == TruncDiv(x, 127773) && lo == TruncMod(x, 127773)
    ensures x == 127773 * hi + lo && Near(lo, 127772)
    ensures if x >= 0 then hi >= 0 && lo >= 0 else hi <= 0 && lo <= 0
  {
    hi, lo := TruncDiv(x, 127773), TruncMod(x, 127773);
  }

  lemma GoodRandRange(x: int)
    requires Near(x, REACH - 1)
    ensures 0 < GoodRand(x) <= MODULUS
  {
    hide TruncDiv, TruncMod;
    var hi, lo := Pieces(x);
    assert Near(hi, 757222);
  }

  /** 16807 is invertible: 16807 * 1407677000 = 1 + 11017 (2^31 - 1). */
  lemma NoZeroDivisor(x: int)
    ensures 16807 * x % MODULUS == 0 <==> x % MODULUS == 0
  {
    if 16807 * x % MODULUS == 0 {
      var t := 16807 * x / MODULUS;
      assert x == MODULUS * (1407677000 * t - 11017 * x);
      DivModUnique(x, MODULUS, 1407677000 * t - 11017 * x, 0);
    } else if x % MODULUS == 0 {
      DivModUnique(16807 * x, MODULUS, 16807 * (x / MODULUS), 0);
    }
  }

  // ---------------------------------------------------------- the seeded window

  function Seeds(x: int, i: nat): int { if i == 0 then x else GoodRand(Seeds(x, i - 1)) }

  /** Divisibility by the modulus is passed on from the seed, whatever its size. */
  lemma {:induction false} SeedsDivisible(x: int, i: nat)
    ensures Seeds(x, i) % MODULUS == 0 <==> x % MODULUS == 0
  {
    if i > 0 {
      hide GoodRand;
      var y := Seeds(x, i - 1);
      SeedsDivisible(x, i - 1);
      NoZeroDivisor(y);
      GoodRandIsResidue(y);
      SameDivisibility(GoodRand(y), 16807 * y);
    }
  }

  lemma SameDivisibility(a: int, b: int)
    requires (a - b) % MODULUS == 0
    ensures a % MODULUS == 0 <==> b % MODULUS == 0
  {
  }

  /** The window of a seed within reach is the sequence of Park and Miller's generator,
      in 1 .. 2^31 - 2, unless the seed is a multiple of the modulus. */
  lemma {:induction false} SeedsArePowers(x: int, i: nat)
    requires Near(x, REACH - 1) && i > 0
    ensures 0 < Seeds(x, i) <= MODULUS && (Seeds(x, i) == MODULUS <==> x % MODULUS == 0)
    ensures x % MODULUS != 0 ==> Seeds(x, i) == 16807 * Seeds(x, i - 1) % MODULUS
  {
    hide GoodRand;
    if i > 1 {
      SeedsArePowers(x, i - 1);
    }
    SeedsDivisible(x, i - 1);
    GoodRandIsResidue(Seeds(x, i - 1));
  }

  /** Such a seed, and no other, fills the rest of the window with the modulus. */
  lemma StuckSeed(x: int)
    requires Near(x, REACH - 1)
    ensures (forall i: nat :: i > 0 ==> Seeds(x, i) == MODULUS) <==> x % MODULUS == 0
  {
    hide GoodRand;
    if x % MODULUS == 0 {
      forall i: nat | i > 0
        ensures Seeds(x, i) == MODULUS
      {
        SeedsArePowers(x, i);
      }
    } else {
      SeedsArePowers(x, 1);
    }
  }

  lemma StuckSeeds()
    ensures GoodRand(0) == GoodRand(MODULUS) == GoodRand(-MODULUS) == GoodRand(2 * MODULUS) == MODULUS
  {
    hide GoodRand;
    GoodRandIsResidue(0);
    GoodRandIsResidue(MODULUS);
    GoodRandIsResidue(-MODULUS);
    GoodRandIsResidue(2 * MODULUS);
  }

  /** A 64-bit seed settles within five steps: from the sixth word on the window is as
      above, stuck exactly for multiples of the modulus. */
  lemma {:induction false} SeedsSettle(x: int, i: nat)
    requires InInt64(x) && i >= 6
    ensures 0 < Seeds(x, i) <= MODULUS && (Seeds(x, i) == MODULUS <==> x % MODULUS == 0)
    ensures x % MODULUS != 0 ==> Seeds(x, i) == 16807 * Seeds(x, i - 1) % MODULUS
    decreases i
  {
    hide GoodRand;
    if i > 6 {
      SeedsSettle(x, i - 1);
    } else {
      FiveSteps(x);
    }
    SeedsDivisible(x, i - 1);
    GoodRandIsResidue(Seeds(x, i - 1));
  }

  lemma FiveSteps(x: int)
    requires InInt64(x)
    ensures Near(Seeds(x, 5), REACH - 1)
  {
    hide GoodRand, Seeds;
    NextSeeds(x);
    Shrinks(x, TWO63);
    Shrinks(Seeds(x, 1), 205_000_000_000_000_000);
    Shrinks(Seeds(x, 2), 4_600_000_000_000_000);
    Shrinks(Seeds(x, 3), 103_000_000_000_000);
    Shrinks(Seeds(x, 4), 2_300_000_000_000);
  }

  lemma NextSeeds(x: int)
    ensures Seeds(x, 1) == GoodRand(x) && Seeds(x, 2) == GoodRand(Seeds(x, 1)) && Seeds(x, 3) == GoodRand(Seeds(x, 2))
    ensures Seeds(x, 4) == GoodRand(Seeds(x, 3)) && Seeds(x, 5) == GoodRand(Seeds(x, 4))
  {
    hide GoodRand;
    assert Seeds(x, 0) == x;
  }

  /** One step divides the size by about 45. */
  lemma Shrinks(x: int, bound: nat)
    requires Near(x, bound)
    ensures Near(GoodRand(x), bound / 45 + 2 * TWO31)
  {
    var hi, lo := Pieces(x);
    assert Near(127773 * hi, bound);
    assert Near(45 * 2836 * hi, bound);
  }

  function Window(x: int): (w: seq<int>)
    ensures |w| == DEG
  { seq(DEG, i requires 0 <= i => Seeds(x, i)) }

  lemma WindowIs(s: seq<int>, x: int)
    requires |s| == DEG && forall k :: 0 <= k < DEG ==> s[k] == Seeds(x, k)
    ensures s == Window(x)
  {
    hide Seeds;
  }

  // ------------------------------------------------------------ the recurrence

  /** The word written by call n, counted from 0; negative n are the seeded window, in
      the order in which the front pointer meets it. */
  function Y(window: seq<int>, n: int): int
    requires |window| == DEG && n >= -DEG
    decreases n + DEG
  {
    if n < 0 then window[(SEP + n + DEG) % DEG] else S64(Y(window, n - DEG) + Y(window, n - SEP))
  }

  /** Bits 1 .. 31 of a word. */
  function Bits(y: int): int { U32(y) / 2 }

  lemma ShiftAndMask(y: int)
    ensures (y / 2) % TWO31 == Bits(y) && 0 <= Bits(y) < TWO31
  {
  }

  /** The same recurrence in 32-bit words. */
  function Y32(window: seq<int>, n: int): int
    requires |window| == DEG && n >= -DEG
    decreases n + DEG
  {
    if n < 0 then U32(window[(SEP + n + DEG) % DEG]) else U32(Y32(window, n - DEG) + Y32(window, n - SEP))
  }

  /** Whatever the width of a long, the output is that of the 32-bit recurrence. */
  lemma {:induction false} WidthIrrelevant(window: seq<int>, n: int)
    requires |window| == DEG && n >= -DEG
    ensures U32(Y(window, n)) == Y32(window, n) && Bits(Y(window, n)) == Y32(window, n) / 2
    decreases n + DEG
  {
    hide U32, S64;
    if n >= 0 {
      WidthIrrelevant(window, n - DEG);
      WidthIrrelevant(window, n - SEP);
      LowSum(Y(window, n - DEG), Y(window, n - SEP));
    }
  }

  /** Each result is the sum of those 31 and 3 calls before it modulo 2^31, or one more. */
  lemma OutputRecurrence(window: seq<int>, n: nat)
    requires |window| == 31
    ensures var sum := Bits(Y(window, n - 31)) + Bits(Y(window, n - 3));
            Bits(Y(window, n)) == sum % 0x8000_0000 || Bits(Y(window, n)) == (sum + 1) % 0x8000_0000
  {
    hide Y, Bits, U32;
    WidthIrrelevant(window, n);
    WidthIrrelevant(window, n - 31);
    WidthIrrelevant(window, n - 3);
    assert Y32(window, n) == U32(Y32(window, n - 31) + Y32(window, n - 3));
    hide Y32;
    HalfSum(Y32(window, n - 31), Y32(window, n - 3));
  }

  lemma HalfSum(a: nat, b: nat)
    ensures U32(a + b) / 2 == (a / 2 + b / 2 + if a % 2 == 1 && b % 2 == 1 then 1 else 0) % TWO31
  {
    var c := if a % 2 == 1 && b % 2 == 1 then 1 else 0;
    var h := a / 2 + b / 2 + c;
    var low := (a + b) % 2;
    assert a + b == 2 * h + low;
    var q := h / TWO31;
    Wrap32(a + b, q);
    DivModUnique(U32(a + b), 2, h - q * TWO31, low);
  }

  lemma LowSum(a: int, b: int)
    ensures U32(S64(a + b)) == U32(U32(a) + U32(b))
  {
    hide U32, U64;
    LowOfU64(a + b);
    TurnBack(U64(a + b));
    LowWords(a, b);
  }

  lemma TurnBack(x: int)
    ensures U32(x - TWO64) == U32(x)
  {
  }

  lemma LowWords(a: int, b: int)
    ensures U32(a + b) == U32(U32(a) + U32(b))
  {
  }

  // ------------------------------------------------------------------ the ring

  /** The latest call before call n that wrote position p (or the seeding). */
  function LastCall(p: int, n: int): (m: int)
    ensures n - DEG <= m < n
  { n - 1 - (SEP + n - 1 - p) % DEG }

  /** Where the words stand before call n. */
  ghost predicate Holds(state: seq<int>, window: seq<int>, n: nat)
    requires |window| == DEG
  {
    && |state| == DEG
    && forall p :: 0 <= p < DEG ==> state[p] == Y(window, LastCall(p, n))
  }

  lemma SeededHolds(window: seq<int>)
    requires |window| == DEG
    ensures Holds(window, window, 0)
  {
    hide S64, LastCall;
    forall p | 0 <= p < DEG
      ensures window[p] == Y(window, LastCall(p, 0))
    {
      SeedingCall(p);
    }
  }

  lemma SeedingCall(p: int)
    requires 0 <= p < DEG
    ensures LastCall(p, 0) < 0 && (SEP + LastCall(p, 0) + DEG) % DEG == p
  {
  }

  /** One call adds the word of the rear pointer to that of the front pointer. */
  lemma CallHolds(state: seq<int>, window: seq<int>, n: nat)
    requires |window| == DEG && Holds(state, window, n)
    ensures var f, r := (SEP + n) % DEG, n % DEG;
            S64(state[f] + state[r]) == Y(window, n) && Holds(state[f := Y(window, n)], window, n + 1)
  {
    hide S64, Y, LastCall;
    var f, r := (SEP + n) % DEG, n % DEG;
    PointerCalls(n);
    Unfold(window, n);
    var next := state[f := Y(window, n)];
    forall p | 0 <= p < DEG
      ensures next[p] == Y(window, LastCall(p, n + 1))
    {
      LastCallMoves(p, n);
    }
  }

  lemma Unfold(window: seq<int>, n: nat)
    requires |window| == DEG
    ensures Y(window, n) == S64(Y(window, n - DEG) + Y(window, n - SEP))
  {
  }

  lemma PointerCalls(n: nat)
    ensures LastCall((SEP + n) % DEG, n) == n - DEG && LastCall(n % DEG, n) == n - SEP
  {
  }

  lemma LastCallMoves(p: int, n: nat)
    requires 0 <= p < DEG
    ensures LastCall(p, n + 1) == if p == (SEP + n) % DEG then n else LastCall(p, n)
  {
  }

  /** Both pointers advance cyclically, and not to the start together. */
  lemma PointersMove(n: nat)
    ensures var f, r := (SEP + n) % DEG, n % DEG;
            && (SEP + n + 1) % DEG == (if f + 1 >= DEG then 0 else f + 1)
            && (n + 1) % DEG == (if r + 1 >= DEG then 0 else r + 1)
            && !(f + 1 >= DEG && r + 1 >= DEG)
            && f == (r + SEP) % DEG
  {
    var q, r := n / DEG, n % DEG;
    var k := if r + SEP >= DEG then 1 else 0;
    DivModUnique(SEP + n, DEG, q + k, r + SEP - k * DEG);
    DivModUnique(r + SEP, DEG, k, r + SEP - k * DEG);
    NextPointer(n);
    NextPointer(SEP + n);
  }

  lemma NextPointer(n: nat)
    ensures (n + 1) % DEG == if n % DEG + 1 >= DEG then 0 else n % DEG + 1
  {
    var q, r := n / DEG, n % DEG;
    if r + 1 >= DEG {
      DivModUnique(n + 1, DEG, q + 1, 0);
    } else {
      DivModUnique(n + 1, DEG, q, r + 1);
    }
  }

  class Ring {
    var state: array<int>
    var fptr: nat
    var rptr: nat
    /** The window last seeded and the number of calls since. */
    ghost var window: seq<int>
    ghost var calls: nat

    ghost predicate Valid()
      reads this, state
    {
      && state.Length == DEG && |window| == DEG
      && fptr == (SEP + calls) % DEG && rptr == calls % DEG
      && Holds(state[..], window, calls)
    }

    constructor (table: seq<int>)
      requires |table| == DEG
      ensures Valid() && window == table && calls == 0 && fresh(state)
    {
      state := new int[DEG](i requires 0 <= i < DEG => table[i]);
      fptr, rptr := SEP, 0;
      window, calls := table, 0;
      new;
      assert state[..] == table;
      SeededHolds(table);
    }

    /** ntp_random.  The rear pointer is tested only when the front one has not wrapped:
        they stay SEP apart, so both never wrap in one call. */
    method Random() returns (i: int)
      requires Valid()
      modifies this`fptr, this`rptr, this`calls, state
      ensures Valid() && window == old(window) && calls == old(calls) + 1
      ensures i == Bits(Y(window, old(calls))) && 0 <= i < TWO31
      ensures fptr == (rptr + SEP) % DEG && !(fptr == 0 && rptr == 0)
    {
      hide Y, S64, U32, Holds, Bits;
      PointersMove(calls);
      PointersMove(calls + 1);
      var f, r := fptr, rptr;
      CallHolds(state[..], window, calls);
      state[f] := S64(state[f] + state[r]);
      i := (state[f] / 2) % TWO31;
      ShiftAndMask(state[f]);
      assert state[..] == old(state[..])[f := Y(window, calls)];
      f := f + 1;
      if f >= DEG {
        f := 0;
        r := r + 1;
      } else {
        r := r + 1;
        if r >= DEG {
          r := 0;
        }
      }
      fptr, rptr := f, r;
      calls := calls + 1;
    }

    /** ntp_srandom: ten rounds of calls bring both pointers back where they were set. */
    method Seed(x: int)
      requires Valid()
      modifies this, state
      ensures Valid() && state == old(state)
      ensures window == Window(S64(x)) && calls == 10 * DEG
      ensures fptr == SEP && rptr == 0
    {
      hide GoodRand, S64, Holds, Window;
      state[0] := S64(x);
      var i := 1;
      while i < DEG
        invariant 1 <= i <= DEG && state.Length == DEG && state == old(state)
        invariant forall k :: 0 <= k < i ==> state[k] == Seeds(S64(x), k)
        modifies state
      {
        state[i] := GoodRand(state[i - 1]);
        i := i + 1;
      }
      fptr, rptr := SEP, 0;
      window, calls := state[..], 0;
      WindowIs(state[..], S64(x));
      SeededHolds(window);
      i := 0;
      while i < 10 * DEG
        invariant 0 <= i <= 10 * DEG && state == old(state)
        invariant Valid() && calls == i && window == Window(S64(x))
      {
        var _ := Random();
        i := i + 1;
      }
    }
  }
}
